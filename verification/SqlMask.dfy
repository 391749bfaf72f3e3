/** The literal and comment masker of the schema-diff gate. */
module SqlMask {
  import opened Wrappers
  import opened Text

  const QUOTE := '\''
  const DASHES := Pair('-', '-')

  function Spaces(n: nat): (s: string)
    ensures |s| == n
  {
    if n == 0 then "" else [' '] + Spaces(n - 1)
  }

  // ---------------------------------------------------------------- the masking replacement

  /** Where a match of the literal pattern that opened before `j` ends (section 22.2 of ECMA-262): take
      as many plain characters and doubled quotes as leave a closing quote, backtracking pair by pair. */
  function LiteralEnd(s: string, j: nat): (end: Option<nat>)
    ensures end.Some? ==> j < end.value <= |s| && s[end.value - 1] == QUOTE
    ensures end.None? ==> forall k | j <= k < |s| :: s[k] != QUOTE
    decreases |s| - j
  {
    if j >= |s| then None
    else if s[j] != QUOTE then LiteralEnd(s, j + 1)
    else if j + 1 < |s| && s[j + 1] == QUOTE && LiteralEnd(s, j + 2).Some? then LiteralEnd(s, j + 2)
    else Some(j + 1)
  }

  /** `maskSqlLiterals` from position `i`: each match keeps its quotes and its length. */
  function MaskFrom(s: string, i: nat): string
    requires i <= |s|
    decreases |s| - i
  {
    if i == |s| then ""
    else if s[i] == QUOTE && LiteralEnd(s, i + 1).Some? then
      var end := LiteralEnd(s, i + 1).value;
      [QUOTE] + Spaces(end - i - 2) + [QUOTE] + MaskFrom(s, end)
    else [s[i]] + MaskFrom(s, i + 1)
  }

  function Mask(line: string): (masked: string)
    ensures |masked| == |line|
  {
    MaskLength(line, 0);
    MaskFrom(line, 0)
  }

  /** `scannableDdl`; `dynamic` says whether a text has the keywords of dynamic DDL. */
  function ScannableDdl(line: string, dynamic: string -> bool): string {
    var masked := Mask(line);
    match Find(masked, DASHES, 0)
    case None => if dynamic(line) then line else masked
    case Some(k) => if dynamic(line[..k]) then line[..k] else masked[..k]
  }

  // ---------------------------------------------------------------- the quote machine

  /** What a character of a line is: outside literals, a quote that opens or closes one, or inside. */
  datatype Role = Code | Delimiter | Content

  /** One pass over the line from `i` (section 5.3 of ISO/IEC 9075-2): a quote opens a literal, a
      doubled quote inside it is content, any other quote closes it. */
  function Roles(s: string, i: nat, inside: bool): (r: seq<Role>)
    requires i <= |s|
    ensures |r| == |s| - i
    decreases |s| - i
  {
    if i == |s| then []
    else if !inside then
      if s[i] == QUOTE then [Delimiter] + Roles(s, i + 1, true) else [Code] + Roles(s, i + 1, false)
    else if s[i] != QUOTE then [Content] + Roles(s, i + 1, true)
    else if i + 1 < |s| && s[i + 1] == QUOTE then [Content] + ([Content] + Roles(s, i + 2, true))
    else [Delimiter] + Roles(s, i + 1, false)
  }

  /** The line from `i`, with the characters inside literals blanked. */
  function Blank(s: string, i: nat, roles: seq<Role>): string
    requires i + |roles| == |s|
    decreases |roles|
  {
    if roles == [] then "" else [if roles[0] == Content then ' ' else s[i]] + Blank(s, i + 1, roles[1..])
  }

  lemma {:induction false} BlankAt(s: string, i: nat, roles: seq<Role>)
    requires i + |roles| == |s|
    ensures |Blank(s, i, roles)| == |roles|
    ensures forall k | 0 <= k < |roles| :: Blank(s, i, roles)[k] == if roles[k] == Content then ' ' else s[i + k]
    decreases |roles|
  {
    if roles != [] { BlankAt(s, i + 1, roles[1..]); }
  }

  function Quotes(s: string, i: nat): nat
    requires i <= |s|
    decreases |s| - i
  {
    if i == |s| then 0 else (if s[i] == QUOTE then 1 else 0) + Quotes(s, i + 1)
  }

  lemma {:induction false} MaskLength(s: string, i: nat)
    requires i <= |s|
    ensures |MaskFrom(s, i)| == |s| - i
    decreases |s| - i
  {
    if i < |s| {
      if s[i] == QUOTE && LiteralEnd(s, i + 1).Some? {
        MaskLength(s, LiteralEnd(s, i + 1).value);
      } else {
        MaskLength(s, i + 1);
      }
    }
  }

  /** The rest of a literal of `n` more characters, its closing quote, and what follows. */
  function Closing(n: nat, rest: string): string {
    Spaces(n) + [QUOTE] + rest
  }

  lemma ClosingGrows(n: nat, rest: string)
    ensures [' '] + Closing(n, rest) == Closing(n + 1, rest)
  {
    assert [' '] + (Spaces(n) + [QUOTE] + rest) == ([' '] + Spaces(n)) + [QUOTE] + rest;
  }

  lemma BlankCons(s: string, i: nat, role: Role, roles: seq<Role>)
    requires i + 1 + |roles| == |s|
    ensures Blank(s, i, [role] + roles) == [if role == Content then ' ' else s[i]] + Blank(s, i + 1, roles)
  {
    assert ([role] + roles)[1..] == roles;
  }

  // ---------------------------------------------------------------- where literals close

  /** Where the machine closes the literal that opened before `j`. */
  function CloseOf(s: string, j: nat): (end: Option<nat>)
    ensures end.Some? ==> j < end.value <= |s|
    decreases |s| - j
  {
    if j >= |s| then None
    else if s[j] != QUOTE then CloseOf(s, j + 1)
    else if j + 1 < |s| && s[j + 1] == QUOTE then CloseOf(s, j + 2)
    else Some(j + 1)
  }

  /** The quote whose literal the rest of the line never closes. */
  function Unclosed(s: string, i: nat): (q: Option<nat>)
    requires i <= |s|
    ensures q.Some? ==> i <= q.value < |s|
    decreases |s| - i
  {
    if i == |s| then None
    else if s[i] != QUOTE then Unclosed(s, i + 1)
    else match CloseOf(s, i + 1) case Some(end) => Unclosed(s, end) case None => Some(i)
  }

  predicate Spaced(s: string, i: nat) {
    forall k | i <= k < |s| :: s[k] == ' '
  }

  lemma {:induction false} CloseQuotes(s: string, j: nat)
    requires j <= |s|
    ensures match CloseOf(s, j)
            case Some(end) => Quotes(s, j) % 2 != Quotes(s, end) % 2
            case None => Quotes(s, j) % 2 == 0
    decreases |s| - j
  {
    if j < |s| {
      if s[j] == QUOTE && j + 1 < |s| && s[j + 1] == QUOTE {
        assert Quotes(s, j) == 2 + Quotes(s, j + 2);
        CloseQuotes(s, j + 2);
      } else if s[j] != QUOTE {
        CloseQuotes(s, j + 1);
      }
    }
  }

  /** A literal is left open exactly when the number of quotes is odd. */
  lemma {:induction false} UnclosedIsOdd(s: string, i: nat)
    requires i <= |s|
    ensures Unclosed(s, i).None? <==> Quotes(s, i) % 2 == 0
    decreases |s| - i
  {
    if i < |s| {
      if s[i] != QUOTE {
        UnclosedIsOdd(s, i + 1);
      } else {
        CloseQuotes(s, i + 1);
        if CloseOf(s, i + 1).Some? { UnclosedIsOdd(s, CloseOf(s, i + 1).value); }
      }
    }
  }

  /** The machine, inside a literal at `j`, blanks up to its closing quote before `end`. */
  predicate ClosesAt(s: string, j: nat, end: nat)
    requires j < end <= |s|
  {
    Blank(s, j, Roles(s, j, true)) == Closing(end - 1 - j, Blank(s, end, Roles(s, end, false)))
  }

  lemma ClosesOneEarlier(s: string, j: nat, end: nat)
    requires j + 1 < end <= |s| && s[j] != QUOTE && ClosesAt(s, j + 1, end)
    ensures ClosesAt(s, j, end)
  {
    BlankCons(s, j, Content, Roles(s, j + 1, true));
    ClosingGrows(end - 2 - j, Blank(s, end, Roles(s, end, false)));
  }

  lemma ClosesTwoEarlier(s: string, j: nat, end: nat)
    requires j + 2 < end <= |s| && s[j] == QUOTE && s[j + 1] == QUOTE && ClosesAt(s, j + 2, end)
    ensures ClosesAt(s, j, end)
  {
    var rest := Roles(s, j + 2, true);
    BlankCons(s, j, Content, [Content] + rest);
    BlankCons(s, j + 1, Content, rest);
    ClosingGrows(end - 3 - j, Blank(s, end, Roles(s, end, false)));
    ClosingGrows(end - 2 - j, Blank(s, end, Roles(s, end, false)));
  }

  lemma ClosesHere(s: string, j: nat)
    requires j < |s| && s[j] == QUOTE && (j + 1 == |s| || s[j + 1] != QUOTE)
    ensures ClosesAt(s, j, j + 1)
  {
    var rest := Roles(s, j + 1, false);
    BlankCons(s, j, Delimiter, rest);
    assert Closing(0, Blank(s, j + 1, rest)) == [QUOTE] + Blank(s, j + 1, rest);
  }

  /** Where the machine closes a literal the pattern ends. */
  lemma {:induction false} LiteralCloses(s: string, j: nat, end: nat)
    requires j <= |s| && CloseOf(s, j) == Some(end)
    ensures LiteralEnd(s, j) == Some(end) && ClosesAt(s, j, end)
    decreases |s| - j
  {
    hide ClosesAt;
    if s[j] != QUOTE {
      LiteralCloses(s, j + 1, end);
      ClosesOneEarlier(s, j, end);
    } else if j + 1 < |s| && s[j + 1] == QUOTE {
      LiteralCloses(s, j + 2, end);
      ClosesTwoEarlier(s, j, end);
    } else {
      ClosesHere(s, j);
    }
  }

  lemma {:induction false} LiteralStaysOpen(s: string, j: nat)
    requires j <= |s| && CloseOf(s, j) == None
    ensures Blank(s, j, Roles(s, j, true)) == Spaces(|s| - j)
    decreases |s| - j
  {
    if j < |s| {
      if s[j] == QUOTE {
        LiteralStaysOpen(s, j + 2);
        var rest := Roles(s, j + 2, true);
        BlankCons(s, j, Content, [Content] + rest);
        BlankCons(s, j + 1, Content, rest);
        assert [' '] + ([' '] + Spaces(|s| - j - 2)) == Spaces(|s| - j);
      } else {
        LiteralStaysOpen(s, j + 1);
        BlankCons(s, j, Content, Roles(s, j + 1, true));
      }
    }
  }

  lemma {:induction false} SpacesAt(n: nat)
    ensures forall k | 0 <= k < n :: Spaces(n)[k] == ' '
  {
    if n > 0 { SpacesAt(n - 1); }
  }

  lemma {:induction false} NoQuoteNoMask(s: string, i: nat)
    requires i <= |s| && forall k | i <= k < |s| :: s[k] != QUOTE
    ensures MaskFrom(s, i) == s[i..]
    decreases |s| - i
  {
    if i < |s| { NoQuoteNoMask(s, i + 1); }
  }

  /** At a quote that opens an unclosed literal: the pattern keeps the rest, or puts a quote where the
      machine has content. */
  lemma OpenLiteral(s: string, i: nat)
    requires i < |s| && s[i] == QUOTE && CloseOf(s, i + 1) == None
    ensures MaskFrom(s, i) == Blank(s, i, Roles(s, i, false)) <==> Spaced(s, i + 1)
  {
    var blank := Spaces(|s| - i - 1);
    LiteralStaysOpen(s, i + 1);
    BlankCons(s, i, Delimiter, Roles(s, i + 1, true));
    SpacesAt(|s| - i - 1);
    match LiteralEnd(s, i + 1)
    case None =>
      NoQuoteNoMask(s, i + 1);
      assert [QUOTE] + s[i + 1..] == [QUOTE] + blank <==> s[i + 1..] == blank by {
        assert ([QUOTE] + s[i + 1..])[1..] == s[i + 1..] && ([QUOTE] + blank)[1..] == blank;
      }
      assert s[i + 1..] == blank <==> Spaced(s, i + 1) by {
        assert forall k | i + 1 <= k < |s| :: s[i + 1..][k - i - 1] == s[k] && blank[k - i - 1] == ' ';
      }
    case Some(end) =>
      assert MaskFrom(s, i)[end - 1 - i] == QUOTE;
      assert ([QUOTE] + blank)[end - 1 - i] == blank[end - 2 - i] == ' ';
  }

  lemma SameRest(n: nat, a: string, b: string)
    ensures Closing(n, a) == Closing(n, b) <==> a == b
  {
    assert Closing(n, a)[n + 1..] == a && Closing(n, b)[n + 1..] == b;
  }

  /** From any position outside literals, the masking replacement is the quote machine exactly when nothing
      but spaces follows a quote left open. */
  lemma {:induction false} MaskIsMachine(s: string, i: nat)
    requires i <= |s|
    ensures MaskFrom(s, i) == Blank(s, i, Roles(s, i, false)) <==>
            match Unclosed(s, i) case None => true case Some(q) => Spaced(s, q + 1)
    decreases |s| - i
  {
    if i < |s| {
      if s[i] != QUOTE {
        MaskIsMachine(s, i + 1);
        BlankCons(s, i, Code, Roles(s, i + 1, false));
        SameTail(s[i], MaskFrom(s, i + 1), Blank(s, i + 1, Roles(s, i + 1, false)));
      } else if CloseOf(s, i + 1).None? {
        OpenLiteral(s, i);
      } else {
        ClosedLiteral(s, i, CloseOf(s, i + 1).value);
        MaskIsMachine(s, CloseOf(s, i + 1).value);
      }
    }
  }

  lemma SameTail(c: char, a: string, b: string)
    ensures [c] + a == [c] + b <==> a == b
  {
    assert ([c] + a)[1..] == a && ([c] + b)[1..] == b;
  }

  lemma QuotedAssoc(blank: string, rest: string)
    ensures [QUOTE] + blank + [QUOTE] + rest == [QUOTE] + (blank + [QUOTE] + rest)
  {
  }

  lemma MaskLiteral(s: string, i: nat, end: nat)
    requires i < |s| && s[i] == QUOTE && LiteralEnd(s, i + 1) == Some(end)
    ensures MaskFrom(s, i) == [QUOTE] + Closing(end - i - 2, MaskFrom(s, end))
  {
    hide LiteralEnd, Spaces;
    QuotedAssoc(Spaces(end - i - 2), MaskFrom(s, end));
  }

  lemma BlankLiteral(s: string, i: nat, end: nat)
    requires i < |s| && s[i] == QUOTE && i + 1 < end <= |s| && ClosesAt(s, i + 1, end)
    ensures Blank(s, i, Roles(s, i, false)) == [QUOTE] + Closing(end - i - 2, Blank(s, end, Roles(s, end, false)))
  {
    BlankCons(s, i, Delimiter, Roles(s, i + 1, true));
  }

  lemma ClosedLiteral(s: string, i: nat, end: nat)
    requires i < |s| && s[i] == QUOTE && CloseOf(s, i + 1) == Some(end)
    ensures MaskFrom(s, i) == Blank(s, i, Roles(s, i, false)) <==>
            MaskFrom(s, end) == Blank(s, end, Roles(s, end, false))
  {
    hide MaskFrom, Blank, Roles, ClosesAt, Closing, LiteralEnd, CloseOf;
    var mask, blank := MaskFrom(s, end), Blank(s, end, Roles(s, end, false));
    LiteralCloses(s, i + 1, end);
    MaskLiteral(s, i, end);
    BlankLiteral(s, i, end);
    SameTail(QUOTE, Closing(end - i - 2, mask), Closing(end - i - 2, blank));
    SameRest(end - i - 2, mask, blank);
  }

  /** Nothing but spaces follows a quote that is left open. */
  predicate Maskable(line: string) {
    match Unclosed(line, 0) case None => true case Some(q) => Spaced(line, q + 1)
  }

  /** `m` is the line with exactly the characters inside literals blanked. */
  ghost predicate BlankedOnly(line: string, m: string) {
    |m| == |line| && forall i | 0 <= i < |line| :: m[i] == if Roles(line, 0, false)[i] == Content then ' ' else line[i]
  }

  lemma BlankedIsBlank(line: string, m: string)
    requires |m| == |line|
    ensures BlankedOnly(line, m) <==> m == Blank(line, 0, Roles(line, 0, false))
  {
    BlankAt(line, 0, Roles(line, 0, false));
  }

  /** Masking keeps the length of every line. It is the quote machine, blanking exactly the characters
      inside literals and keeping every other one in place, exactly when nothing but spaces follows a quote
      left open; so on every line with an even number of quotes. */
  lemma MaskExact(line: string)
    ensures |Mask(line)| == |line|
    ensures BlankedOnly(line, Mask(line)) <==> Maskable(line)
    ensures Quotes(line, 0) % 2 == 0 ==> Maskable(line)
  {
    MaskIsMachine(line, 0);
    UnclosedIsOdd(line, 0);
    hide MaskFrom, Blank, Roles, BlankedOnly;
    BlankedIsBlank(line, Mask(line));
  }

  // ---------------------------------------------------------------- lines with a quote left open

  /** The last quote of the line stands at `z`. */
  predicate LastQuote(s: string, z: int) {
    0 <= z < |s| && s[z] == QUOTE && forall k | z < k < |s| :: s[k] != QUOTE
  }

  /** The pattern ends an open literal at the quote before the last one. */
  lemma {:induction false} OpenEnd(s: string, j: nat, z: int)
    requires j <= |s| && CloseOf(s, j) == None && LastQuote(s, z)
    ensures LiteralEnd(s, j) == if z >= j then Some(z) else None
    ensures z >= j ==> z > j && s[z - 1] == QUOTE
    decreases |s| - j
  {
    if j < |s| {
      if s[j] != QUOTE { OpenEnd(s, j + 1, z); } else { OpenEnd(s, j + 2, z); }
    }
  }

  lemma OpenKept(s: string, q: nat)
    requires q < |s| && s[q] == QUOTE && LiteralEnd(s, q + 1) == None
    ensures MaskFrom(s, q) == s[q..]
  {
    NoQuoteNoMask(s, q + 1);
    hide LiteralEnd;
    assert MaskFrom(s, q) == [s[q]] + MaskFrom(s, q + 1);
    assert s[q..] == [s[q]] + s[q + 1..];
  }

  lemma OpenMasked(s: string, q: nat, z: int)
    requires q < |s| && s[q] == QUOTE && CloseOf(s, q + 1) == None && LastQuote(s, z) && z > q
    ensures q + 2 <= z && s[z - 1] == QUOTE && MaskFrom(s, q) == [QUOTE] + Closing(z - q - 2, s[z..])
  {
    OpenEnd(s, q + 1, z);
    assert LiteralEnd(s, z + 1) == None by { if LiteralEnd(s, z + 1).Some? { assert false; } }
    OpenKept(s, z);
    MaskLiteral(s, q, z);
  }

  lemma ClosingAt(n: nat, rest: string)
    ensures |[QUOTE] + Closing(n, rest)| == n + 2 + |rest|
    ensures forall j | 0 <= j < n + 2 + |rest| ::
              ([QUOTE] + Closing(n, rest))[j] ==
              if j == 0 || j == n + 1 then QUOTE else if j <= n then ' ' else rest[j - n - 2]
  {
    SpacesAt(n);
    var whole := [QUOTE] + Closing(n, rest);
    hide Spaces;
    assert whole == ([QUOTE] + Spaces(n)) + [QUOTE] + rest;
  }

  /** From the open quote: what lies before the last two quotes is blanked, the rest stays. */
  lemma MaskOpen(s: string, q: nat, z: int)
    requires q < |s| && s[q] == QUOTE && CloseOf(s, q + 1) == None && LastQuote(s, z)
    ensures |MaskFrom(s, q)| == |s| - q
    ensures forall j | 0 <= j < |s| - q :: MaskFrom(s, q)[j] == if 0 < j < z - 1 - q then ' ' else s[q + j]
  {
    hide MaskFrom, CloseOf, LiteralEnd, Closing;
    OpenEnd(s, q + 1, z);
    if z > q {
      OpenMasked(s, q, z);
      ClosingAt(z - q - 2, s[z..]);
    } else {
      OpenKept(s, q);
    }
  }

  /** The mask from `i` is the machine up to `q` and the mask from there on. */
  predicate MachineUpTo(s: string, i: nat, q: nat)
    requires i <= q < |s|
  {
    |Blank(s, i, Roles(s, i, false))| == |s| - i &&
    MaskFrom(s, i) == Blank(s, i, Roles(s, i, false))[..q - i] + MaskFrom(s, q)
  }

  lemma ClosedUpTo(s: string, i: nat, end: nat, q: nat)
    requires i < |s| && s[i] == QUOTE && CloseOf(s, i + 1) == Some(end) && end <= q < |s| && MachineUpTo(s, end, q)
    ensures MachineUpTo(s, i, q)
  {
    hide MaskFrom, Roles, LiteralEnd, CloseOf, ClosesAt;
    LiteralCloses(s, i + 1, end);
    MaskLiteral(s, i, end);
    BlankLiteral(s, i, end);
    BlankAt(s, i, Roles(s, i, false));
    hide Blank;
    PrefixClosing(end - i - 2, Blank(s, end, Roles(s, end, false)), q - end, MaskFrom(s, q));
  }

  lemma PrefixClosing(n: nat, rest: string, k: nat, more: string)
    requires k <= |rest|
    ensures |Closing(n, rest)| == n + 1 + |rest|
    ensures [QUOTE] + Closing(n, rest[..k] + more) == ([QUOTE] + Closing(n, rest))[..n + 2 + k] + more
  {
    var head := [QUOTE] + Spaces(n) + [QUOTE];
    assert [QUOTE] + Closing(n, rest) == head + rest;
    assert [QUOTE] + Closing(n, rest[..k] + more) == head + rest[..k] + more;
  }

  /** Up to the open quote the replacement is the machine. */
  lemma {:induction false} MaskBeforeOpen(s: string, i: nat, q: nat)
    requires i <= |s| && Unclosed(s, i) == Some(q)
    ensures s[q] == QUOTE && CloseOf(s, q + 1) == None && MachineUpTo(s, i, q)
    decreases |s| - i
  {
    BlankAt(s, i, Roles(s, i, false));
    if s[i] != QUOTE {
      MaskBeforeOpen(s, i + 1, q);
      BlankCons(s, i, Code, Roles(s, i + 1, false));
      var rest := Blank(s, i + 1, Roles(s, i + 1, false));
      assert ([s[i]] + rest)[..q - i] == [s[i]] + rest[..q - i - 1];
    } else if CloseOf(s, i + 1).None? {
      assert q == i;
    } else {
      MaskBeforeOpen(s, CloseOf(s, i + 1).value, q);
      ClosedUpTo(s, i, CloseOf(s, i + 1).value, q);
    }
  }

  /** Masking on a line whose quote at `q` is left open: the machine up to it, then blanks up to the last two
      quotes of the line, and the rest as it was. */
  lemma MaskOdd(line: string, q: nat, z: int)
    requires Unclosed(line, 0) == Some(q) && LastQuote(line, z)
    ensures forall k | 0 <= k < |line| ::
              Mask(line)[k] == if k <= q then (if Roles(line, 0, false)[k] == Content then ' ' else line[k])
                               else if k < z - 1 then ' ' else line[k]
  {
    MaskBeforeOpen(line, 0, q);
    MaskOpen(line, q, z);
    BlankAt(line, 0, Roles(line, 0, false));
    OpenIsDelimiter(line, 0, q);
    assert Mask(line) == MaskFrom(line, 0);
    hide MaskFrom, Blank, Roles, Mask, Unclosed, CloseOf, LastQuote;
    OddChars(line, Roles(line, 0, false), Blank(line, 0, Roles(line, 0, false)), MaskFrom(line, q), q, z);
  }

  lemma OddChars(line: string, roles: seq<Role>, blank: string, back: string, q: nat, z: int)
    requires |roles| == |blank| == |line| && q < |line| && |back| == |line| - q && roles[q] == Delimiter
    requires forall k | 0 <= k < |line| :: blank[k] == if roles[k] == Content then ' ' else line[k]
    requires forall j | 0 <= j < |back| :: back[j] == if 0 < j < z - 1 - q then ' ' else line[q + j]
    ensures forall k | 0 <= k < |line| ::
              (blank[..q] + back)[k] == if k <= q then (if roles[k] == Content then ' ' else line[k])
                                        else if k < z - 1 then ' ' else line[k]
  {
    forall k | 0 <= k < |line|
      ensures (blank[..q] + back)[k] == if k <= q then (if roles[k] == Content then ' ' else line[k])
                                        else if k < z - 1 then ' ' else line[k]
    {
      if k < q { assert (blank[..q] + back)[k] == blank[k]; } else { assert (blank[..q] + back)[k] == back[k - q]; }
    }
  }

  lemma {:induction false} OpenIsDelimiter(s: string, i: nat, q: nat)
    requires i <= |s| && Unclosed(s, i) == Some(q)
    ensures Roles(s, i, false)[q - i] == Delimiter
    decreases |s| - i
  {
    if s[i] != QUOTE {
      OpenIsDelimiter(s, i + 1, q);
    } else if CloseOf(s, i + 1).Some? {
      OpenIsDelimiter(s, CloseOf(s, i + 1).value, q);
      AfterClose(s, i + 1, CloseOf(s, i + 1).value);
    }
  }

  lemma {:induction false} AfterClose(s: string, j: nat, end: nat)
    requires j <= |s| && CloseOf(s, j) == Some(end)
    ensures Roles(s, j, true)[end - j..] == Roles(s, end, false)
    decreases |s| - j
  {
    if s[j] != QUOTE {
      AfterClose(s, j + 1, end);
    } else if j + 1 < |s| && s[j + 1] == QUOTE {
      AfterClose(s, j + 2, end);
      assert ([Content] + ([Content] + Roles(s, j + 2, true)))[end - j..] == Roles(s, j + 2, true)[end - j - 2..];
    }
  }

  /** An unclosed literal where the two part: the pattern closes it at the first quote of its last pair. */
  lemma UnclosedLiteral()
    ensures Mask("'a''b")[2] == QUOTE && Roles("'a''b", 0, false)[2] == Content
  {
    var s := "'a''b";
    assert LiteralEnd(s, 4) == None;
    assert LiteralEnd(s, 2) == Some(3);
    assert LiteralEnd(s, 1) == Some(3);
    MaskLength(s, 3);
    assert Roles(s, 2, true)[0] == Content;
    assert Roles(s, 1, true)[1] == Content;
  }

  // ---------------------------------------------------------------- what is left to scan

  predicate CommentAt(line: string, k: int) {
    OccursAt(line, DASHES, k) && Roles(line, 0, false)[k] == Code && Roles(line, 0, false)[k + 1] == Code
  }

  lemma {:induction false} RoleOfPlain(s: string, i: nat, inside: bool, k: nat)
    requires i + k < |s| && Roles(s, i, inside)[k] == Delimiter
    ensures s[i + k] == QUOTE
    decreases |s| - i
  {
    if k > 0 {
      if inside && s[i] == QUOTE && i + 1 < |s| && s[i + 1] == QUOTE {
        if k > 1 { RoleOfPlain(s, i + 2, true, k - 2); }
      } else {
        RoleOfPlain(s, i + 1, if s[i] == QUOTE then !inside else inside, k - 1);
      }
    }
  }

  /** For a line with nothing but spaces after a quote left open: the text left to scan ends at the first
      `--` outside a literal, keeps everything outside literals at its index, and blanks literals unless the
      code before the comment is dynamic DDL. */
  lemma ScannableExact(line: string, dynamic: string -> bool, cut: nat)
    requires Maskable(line)
    requires cut <= |line| && (cut < |line| ==> CommentAt(line, cut))
    requires forall k | 0 <= k < cut :: !CommentAt(line, k)
    ensures var r := ScannableDdl(line, dynamic);
            |r| == cut && forall i | 0 <= i < cut ::
              r[i] == if Roles(line, 0, false)[i] == Content && !dynamic(line[..cut]) then ' ' else line[i]
  {
    MaskExact(line);
    var masked := Mask(line);
    forall k ensures OccursAt(masked, DASHES, k) <==> CommentAt(line, k) {
      if 0 <= k && k + 1 < |line| {
        if Roles(line, 0, false)[k] == Delimiter { RoleOfPlain(line, 0, false, k); }
        if Roles(line, 0, false)[k + 1] == Delimiter { RoleOfPlain(line, 0, false, k + 1); }
      }
    }
    match Find(masked, DASHES, 0)
    case None => assert cut == |line| && line[..cut] == line;
    case Some(k) => assert cut == k;
  }
}
