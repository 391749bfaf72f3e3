/** Strings: searching, splitting and joining. */
module Text {
  import opened Wrappers

  /** Two characters in a row: the shape of every marker searched for here. */
  datatype Pair = Pair(first: char, second: char)

  predicate OccursAt(s: string, p: Pair, i: int) {
    0 <= i && i + 2 <= |s| && s[i] == p.first && s[i + 1] == p.second
  }

  predicate Contains(s: string, p: Pair) {
    exists i | 0 <= i < |s| :: OccursAt(s, p, i)
  }

  /** `indexOf`: the first occurrence at or after `from`. */
  function Find(s: string, p: Pair, from: nat): (r: Option<nat>)
    ensures r.Some? ==> r.value >= from && OccursAt(s, p, r.value)
    ensures forall j | from <= j && OccursAt(s, p, j) :: r.Some? && r.value <= j
    decreases |s| - from
  {
    if from >= |s| then None
    else if OccursAt(s, p, from) then Some(from)
    else Find(s, p, from + 1)
  }

  lemma Assoc<T>(a: seq<T>, b: seq<T>, c: seq<T>)
    ensures a + (b + c) == (a + b) + c
  {
  }

  lemma HeadTail<T>(x: seq<T>, y: seq<T>)
    requires x != []
    ensures (x + y)[0] == x[0] && (x + y)[1..] == x[1..] + y
  {
  }

  // ---------------------------------------------------------------- split and join at one character

  function Split(s: string, c: char): (lines: seq<string>)
    ensures lines != []
  {
    if s == "" then [""]
    else
      var rest := Split(s[1..], c);
      if s[0] == c then [""] + rest else [[s[0]] + rest[0]] + rest[1..]
  }

  function Join(lines: seq<string>, c: char): string {
    if lines == [] then ""
    else if |lines| == 1 then lines[0]
    else lines[0] + [c] + Join(lines[1..], c)
  }

  lemma {:induction false} SplitParts(s: string, c: char)
    ensures forall l | l in Split(s, c) :: c !in l
  {
    if s != "" { SplitParts(s[1..], c); }
  }

  lemma {:induction false} SplitWhole(s: string, c: char)
    requires c !in s
    ensures Split(s, c) == [s]
  {
    if s != "" {
      SplitWhole(s[1..], c);
      assert [s[0]] + s[1..] == s;
    }
  }

  lemma {:induction false} SplitConcat(a: string, b: string, c: char)
    ensures Split(a + [c] + b, c) == Split(a, c) + Split(b, c)
  {
    var s := a + [c] + b;
    if a == "" {
      assert s[1..] == b;
    } else {
      assert s[1..] == a[1..] + [c] + b;
      SplitConcat(a[1..], b, c);
      var x, y := Split(a[1..], c), Split(b, c);
      HeadTail(x, y);
      Assoc([""], x, y);
      Assoc([[a[0]] + x[0]], x[1..], y);
    }
  }

  lemma {:induction false} SplitJoin(lines: seq<string>, c: char)
    requires lines != [] && forall l | l in lines :: c !in l
    ensures Split(Join(lines, c), c) == lines
  {
    SplitWhole(lines[0], c);
    if |lines| > 1 {
      SplitJoin(lines[1..], c);
      SplitConcat(lines[0], Join(lines[1..], c), c);
    }
  }

  lemma {:induction false} JoinSplit(s: string, c: char)
    ensures Join(Split(s, c), c) == s
  {
    if s != "" {
      JoinSplit(s[1..], c);
      var rest := Split(s[1..], c);
      assert s == [s[0]] + s[1..];
      if s[0] == c {
        assert ([""] + rest)[1..] == rest;
      } else {
        assert ([[s[0]] + rest[0]] + rest[1..])[1..] == rest[1..];
        if |rest| > 1 {
          assert [s[0]] + (rest[0] + [c] + Join(rest[1..], c)) == ([s[0]] + rest[0]) + [c] + Join(rest[1..], c);
        }
      }
    }
  }

  // ---------------------------------------------------------------- subsequences

  /** `a` is `b` with some characters left out. */
  predicate Subsequence(a: string, b: string) {
    a == "" || (b != "" && ((a[0] == b[0] && Subsequence(a[1..], b[1..])) || Subsequence(a, b[1..])))
  }

  lemma {:induction false} SubsequencePrefix(p: string, a: string, b: string)
    requires Subsequence(a, b)
    ensures Subsequence(p + a, p + b)
  {
    if p == "" {
      assert p + a == a && p + b == b;
    } else {
      SubsequencePrefix(p[1..], a, b);
      assert (p + a)[1..] == p[1..] + a && (p + b)[1..] == p[1..] + b;
    }
  }

  lemma {:induction false} SubsequenceSkip(p: string, b: string)
    ensures Subsequence(b, p + b)
  {
    if p == "" {
      assert p + b == b;
      SubsequencePrefix(b, "", "");
      assert b + "" == b;
    } else {
      SubsequenceSkip(p[1..], b);
      assert (p + b)[1..] == p[1..] + b;
    }
  }

  lemma {:induction false} SubsequenceTransitive(a: string, b: string, c: string)
    requires Subsequence(a, b) && Subsequence(b, c)
    ensures Subsequence(a, c)
    decreases |b| + |c|
  {
    if a != "" {
      if b[0] == c[0] && Subsequence(b[1..], c[1..]) {
        if a[0] == b[0] && Subsequence(a[1..], b[1..]) {
          SubsequenceTransitive(a[1..], b[1..], c[1..]);
        } else {
          SubsequenceTransitive(a, b[1..], c[1..]);
        }
      } else {
        SubsequenceTransitive(a, b, c[1..]);
      }
    }
  }

  /** Deleting a stretch of `s`. */
  lemma DeleteIsSubsequence(s: string, i: nat, j: nat)
    requires i <= j <= |s|
    ensures Subsequence(s[..i] + s[j..], s)
  {
    SubsequenceSkip(s[i..j], s[j..]);
    assert s[i..j] + s[j..] == s[i..];
    SubsequencePrefix(s[..i], s[j..], s[i..]);
    assert s[..i] + s[i..] == s;
  }

  lemma {:induction false} SubsequenceOver(a: string, b: string, c: char)
    requires Subsequence(a, b) && c !in b
    ensures c !in a
  {
    if a != "" {
      if a[0] == b[0] && Subsequence(a[1..], b[1..]) {
        SubsequenceOver(a[1..], b[1..], c);
        assert a == [a[0]] + a[1..];
      } else {
        SubsequenceOver(a, b[1..], c);
      }
    }
  }
}
