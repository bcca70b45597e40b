/** The optional value that Python expresses with `None`. */
module Wrappers {
  datatype Option<+T> = None | Some(value: T)
}

/**
 * The string primitives the extractor relies on: Python's notion of
 * whitespace (`str.isspace`, which `strip()`, `split()` and the regular
 * expression class `\s` share), `strip()`, ASCII `lower()`, `splitlines()`,
 * `re.split(r"\s+", ...)` and `re.sub(r"\s+", " ", ...)`.
 */
module Text {

  /** The characters Python's `str.isspace()` accepts. */
  predicate IsSpace(c: char) {
    ('\t' <= c <= '\r') || ('\U{1C}' <= c <= ' ') || c == '\U{85}' || c == '\U{A0}' ||
    c == '\U{1680}' || ('\U{2000}' <= c <= '\U{200A}') || c == '\U{2028}' || c == '\U{2029}' ||
    c == '\U{202F}' || c == '\U{205F}' || c == '\U{3000}'
  }

  /** The line boundaries of Python's `str.splitlines()` (`\r\n` counts as one). */
  predicate IsLineBreak(c: char) {
    c == '\n' || c == '\r' || c == '\U{B}' || c == '\U{C}' || ('\U{1C}' <= c <= '\U{1E}') ||
    c == '\U{85}' || c == '\U{2028}' || c == '\U{2029}'
  }

  predicate IsDigit(c: char) { '0' <= c <= '9' }

  predicate AllDigits(s: string) { forall i :: 0 <= i < |s| ==> IsDigit(s[i]) }

  /** `re.search(r"\d", s)` succeeds (ASCII digits). */
  predicate HasDigit(s: string) { exists i :: 0 <= i < |s| && IsDigit(s[i]) }

  predicate NoSpace(s: string) { forall i :: 0 <= i < |s| ==> !IsSpace(s[i]) }

  /** Index of the first `c` in `s`, or `|s|` when there is none (`s.find(c)` with `-1` as `|s|`). */
  function IndexOf(s: string, c: char): (k: nat)
    ensures k <= |s| && (k < |s| ==> s[k] == c)
    ensures forall i :: 0 <= i < k ==> s[i] != c
  {
    IndexFrom(s, c, 0)
  }

  function IndexFrom(s: string, c: char, i: nat): (k: nat)
    requires i <= |s|
    ensures i <= k <= |s| && (k < |s| ==> s[k] == c)
    ensures forall j :: i <= j < k ==> s[j] != c
    decreases |s| - i
  {
    if i == |s| || s[i] == c then i else IndexFrom(s, c, i + 1)
  }

  /**
   * `s` without the characters `drop` selects: `re.sub` over a character
   * class, or `s.replace(c, "")` when `drop` selects one character.
   */
  function Without(s: string, drop: char -> bool): string {
    WithoutFirst(s, |s|, drop)
  }

  /** The first `n` characters of `s` without those `drop` selects. */
  function WithoutFirst(s: string, n: nat, drop: char -> bool): string
    requires n <= |s|
  {
    if n == 0 then [] else WithoutFirst(s, n - 1, drop) + (if drop(s[n - 1]) then [] else [s[n - 1]])
  }

  /** Python's `s.replace(a, b)` for single characters. */
  function Replace(s: string, a: char, b: char): (r: string)
    ensures |r| == |s|
    ensures forall i :: 0 <= i < |s| ==> r[i] == (if s[i] == a then b else s[i])
  {
    seq(|s|, i requires 0 <= i < |s| => if s[i] == a then b else s[i])
  }

  function LowerChar(c: char): char {
    if 'A' <= c <= 'Z' then (c as int + 32) as char else c
  }

  /** `s.lower()`, with ASCII case folding. */
  function Lower(s: string): (r: string)
    ensures |r| == |s|
    ensures forall i :: 0 <= i < |s| ==> r[i] == LowerChar(s[i])
  {
    seq(|s|, i requires 0 <= i < |s| => LowerChar(s[i]))
  }

  /** `s.lstrip()`: drops the leading whitespace and nothing else. */
  function StripLeft(s: string): (r: string)
    ensures |r| <= |s| && r == s[|s| - |r|..]
    ensures forall i :: 0 <= i < |s| - |r| ==> IsSpace(s[i])
    ensures r != [] ==> !IsSpace(r[0])
  {
    s[SkipSpaces(s, 0)..]
  }

  /** Index just past the last non-space character of `s[..n]`, or 0. */
  function TrimEnd(s: string, n: nat): (j: nat)
    requires n <= |s|
    ensures j <= n && (j > 0 ==> !IsSpace(s[j - 1]))
    ensures forall i :: j <= i < n ==> IsSpace(s[i])
  {
    if n == 0 || !IsSpace(s[n - 1]) then n else TrimEnd(s, n - 1)
  }

  /** `s.rstrip()`: drops the trailing whitespace and nothing else. */
  function StripRight(s: string): (r: string)
    ensures |r| <= |s| && r == s[..|r|]
    ensures forall i :: |r| <= i < |s| ==> IsSpace(s[i])
    ensures r != [] ==> !IsSpace(r[|r| - 1])
  {
    s[..TrimEnd(s, |s|)]
  }

  /** `s.strip()`: the middle of `s`, with only whitespace around it. */
  function Strip(s: string): (r: string)
    ensures exists a, b :: (0 <= a <= b <= |s| && r == s[a..b] &&
      (forall i :: 0 <= i < a ==> IsSpace(s[i])) && (forall i :: b <= i < |s| ==> IsSpace(s[i])))
    ensures r != [] ==> !IsSpace(r[0]) && !IsSpace(r[|r| - 1])
    ensures (r == []) <==> (forall i :: 0 <= i < |s| ==> IsSpace(s[i]))
  {
    var l := StripLeft(s);
    StripAround(s, l, StripRight(l));
    StripRight(l)
  }

  /** `rstrip` of `lstrip` is a slice of `s` with only whitespace on either side. */
  lemma StripAround(s: string, l: string, r: string)
    requires l == StripLeft(s) && r == StripRight(l)
    ensures 0 <= |s| - |l| <= |s| - |l| + |r| <= |s|
    ensures r == s[|s| - |l|..|s| - |l| + |r|]
    ensures forall i :: 0 <= i < |s| - |l| ==> IsSpace(s[i])
    ensures forall i :: |s| - |l| + |r| <= i < |s| ==> IsSpace(s[i])
  {
    var a := |s| - |l|;
    forall i | a + |r| <= i < |s| ensures IsSpace(s[i]) {
      assert s[i] == l[i - a];
    }
  }

  lemma Associative<T>(a: seq<T>, b: seq<T>, c: seq<T>)
    ensures a + b + c == a + (b + c)
  {
  }

  /** The index with the two defining properties is the one `IndexOf` finds. */
  lemma IndexOfIs(s: string, c: char, k: nat)
    requires k <= |s| && (k < |s| ==> s[k] == c)
    requires forall i :: 0 <= i < k ==> s[i] != c
    ensures IndexOf(s, c) == k
  {
  }

  /** In `p + [c] + rest` with no `c` in `p`, the first `c` follows `p`. */
  lemma FirstAt(p: string, c: char, rest: string)
    requires forall i :: 0 <= i < |p| ==> p[i] != c
    ensures var s := p + ([c] + rest);
      IndexOf(s, c) == |p| && s[..|p|] == p && s[|p| + 1..] == rest
  {
    var s := p + ([c] + rest);
    assert s[..|p|] == p;
    assert s[|p| + 1..] == rest;
    forall i | 0 <= i < |p| ensures s[i] != c { assert s[i] == p[i]; }
    IndexOfIs(s, c, |p|);
  }

  lemma AllDigitsPush(a: string, c: char)
    requires AllDigits(a) && IsDigit(c)
    ensures AllDigits(a + [c])
  {
    var s := a + [c];
    forall i | 0 <= i < |s| ensures IsDigit(s[i]) {
      if i < |a| { assert s[i] == a[i]; }
    }
  }

  /** `Replace` works character by character. */
  lemma ReplaceAppend(s: string, t: string, a: char, b: char)
    ensures Replace(s + t, a, b) == Replace(s, a, b) + Replace(t, a, b)
  {
  }

  lemma ReplaceAbsent(s: string, a: char, b: char)
    requires forall i :: 0 <= i < |s| ==> s[i] != a
    ensures Replace(s, a, b) == s
  {
  }

  lemma StripNothing(s: string)
    requires s == [] || (!IsSpace(s[0]) && !IsSpace(s[|s| - 1]))
    ensures Strip(s) == s
  {
  }

  /** First index at or after `i` whose character satisfies `stop`, or `|s|`. */
  function FirstWhere(s: string, i: nat, stop: char -> bool): (j: nat)
    requires i <= |s|
    ensures i <= j <= |s| && (j < |s| ==> stop(s[j]))
    ensures forall k :: i <= k < j ==> !stop(s[k])
    decreases |s| - i
  {
    if i == |s| || stop(s[i]) then i else FirstWhere(s, i + 1, stop)
  }

  predicate NotSpace(c: char) { !IsSpace(c) }

  /** End of the whitespace run that starts at `i`. */
  function SkipSpaces(s: string, i: nat): (j: nat)
    requires i <= |s|
    ensures i <= j <= |s| && (j < |s| ==> !IsSpace(s[j]))
    ensures forall k :: i <= k < j ==> IsSpace(s[k])
  {
    FirstWhere(s, i, NotSpace)
  }

  /** Python's `s.splitlines()`. */
  function SplitLines(s: string): (lines: seq<string>)
    ensures forall k, i :: 0 <= k < |lines| && 0 <= i < |lines[k]| ==> !IsLineBreak(lines[k][i])
    decreases |s|
  {
    if s == [] then []
    else
      var j := FirstWhere(s, 0, IsLineBreak);
      if j == |s| then [s]
      else
        var next := if s[j] == '\r' && j + 1 < |s| && s[j + 1] == '\n' then j + 2 else j + 1;
        [s[..j]] + SplitLines(s[next..])
  }

  /** `re.split(r"\s+", s)`: the pieces between whitespace runs, empty ones included. */
  function SplitWs(s: string): (tokens: seq<string>)
    ensures |tokens| >= 1
    ensures forall k :: 0 <= k < |tokens| ==> NoSpace(tokens[k])
    decreases |s|
  {
    var j := FirstWhere(s, 0, IsSpace);
    if j == |s| then [s] else [s[..j]] + SplitWs(s[SkipSpaces(s, j)..])
  }

  /** `re.sub(r"\s+", " ", s)`: every whitespace run becomes one blank. */
  function CollapseSpaces(s: string): (r: string)
    ensures r != [] ==> s != [] && (IsSpace(r[0]) <==> IsSpace(s[0]))
    decreases |s|
  {
    if s == [] then []
    else if IsSpace(s[0]) then " " + CollapseSpaces(s[SkipSpaces(s, 0)..])
    else [s[0]] + CollapseSpaces(s[1..])
  }

  /** Concatenation of a sequence of strings. */
  function Concat(ss: seq<string>): string {
    if ss == [] then [] else ss[0] + Concat(ss[1..])
  }

  /** `sep.join(ss)`. */
  function Join(ss: seq<string>, sep: string): string {
    if ss == [] then [] else if |ss| == 1 then ss[0] else ss[0] + sep + Join(ss[1..], sep)
  }

  /** A non-empty run of whitespace. */
  predicate Blank(g: string) {
    g != [] && forall i :: 0 <= i < |g| ==> IsSpace(g[i])
  }

  /** The pieces `ts` with `gaps[k]` between `ts[k]` and `ts[k + 1]`. */
  function Interleave(ts: seq<string>, gaps: seq<string>): string
    requires |gaps| + 1 == |ts|
  {
    if gaps == [] then ts[0] else ts[0] + gaps[0] + Interleave(ts[1..], gaps[1..])
  }

  // ---------------------------------------------------------------------
  // Properties of the primitives.

  /** The kept characters of a prefix depend on that prefix only. */
  lemma {:induction false} WithoutFirstAgree(s: string, t: string, n: nat, drop: char -> bool)
    requires n <= |s| && n <= |t|
    requires forall i :: 0 <= i < n ==> s[i] == t[i]
    ensures WithoutFirst(s, n, drop) == WithoutFirst(t, n, drop)
  {
    if n > 0 {
      WithoutFirstAgree(s, t, n - 1, drop);
    }
  }

  lemma {:induction false} WithoutFirstAppend(a: string, b: string, k: nat, drop: char -> bool)
    requires k <= |b|
    ensures WithoutFirst(a + b, |a| + k, drop) == Without(a, drop) + WithoutFirst(b, k, drop)
  {
    if k == 0 {
      WithoutFirstAgree(a + b, a, |a|, drop);
      assert Without(a, drop) + [] == Without(a, drop);
    } else {
      WithoutFirstAppend(a, b, k - 1, drop);
      assert (a + b)[|a| + k - 1] == b[k - 1];
      var h := if drop(b[k - 1]) then [] else [b[k - 1]];
      Associative(Without(a, drop), WithoutFirst(b, k - 1, drop), h);
    }
  }

  lemma WithoutAppend(a: string, b: string, drop: char -> bool)
    ensures Without(a + b, drop) == Without(a, drop) + Without(b, drop)
  {
    WithoutFirstAppend(a, b, |b|, drop);
  }

  lemma {:induction false} WithoutFirstKeeps(s: string, n: nat, drop: char -> bool)
    requires n <= |s|
    requires forall i :: 0 <= i < n ==> !drop(s[i])
    ensures WithoutFirst(s, n, drop) == s[..n]
  {
    if n > 0 {
      WithoutFirstKeeps(s, n - 1, drop);
      assert s[..n] == s[..n - 1] + [s[n - 1]];
    }
  }

  lemma WithoutKeepsAll(s: string, drop: char -> bool)
    requires forall i :: 0 <= i < |s| ==> !drop(s[i])
    ensures Without(s, drop) == s
  {
    WithoutFirstKeeps(s, |s|, drop);
    assert s[..|s|] == s;
  }

  lemma {:induction false} WithoutFirstDrops(s: string, n: nat, drop: char -> bool)
    requires n <= |s|
    requires forall i :: 0 <= i < n ==> drop(s[i])
    ensures WithoutFirst(s, n, drop) == []
  {
    if n > 0 {
      WithoutFirstDrops(s, n - 1, drop);
    }
  }

  lemma WithoutDropsAll(s: string, drop: char -> bool)
    requires forall i :: 0 <= i < |s| ==> drop(s[i])
    ensures Without(s, drop) == []
  {
    WithoutFirstDrops(s, |s|, drop);
  }

  /** Removing characters never creates a digit. */
  lemma {:induction false} WithoutFirstDigits(s: string, n: nat, drop: char -> bool)
    requires n <= |s|
    ensures HasDigit(WithoutFirst(s, n, drop)) ==> exists i :: 0 <= i < n && IsDigit(s[i])
  {
    if n > 0 {
      var r, rest := WithoutFirst(s, n, drop), WithoutFirst(s, n - 1, drop);
      WithoutFirstDigits(s, n - 1, drop);
      if HasDigit(r) {
        var i :| 0 <= i < |r| && IsDigit(r[i]);
        if i < |rest| {
          assert r[i] == rest[i];
          assert HasDigit(rest);
        } else {
          assert IsDigit(s[n - 1]);
        }
      }
    }
  }

  lemma WithoutDigits(s: string, drop: char -> bool)
    ensures HasDigit(Without(s, drop)) ==> HasDigit(s)
  {
    WithoutFirstDigits(s, |s|, drop);
  }

  /** No character that `drop` selects is left. */
  lemma {:induction false} WithoutFirstNoneLeft(s: string, n: nat, drop: char -> bool)
    requires n <= |s|
    ensures forall i :: 0 <= i < |WithoutFirst(s, n, drop)| ==> !drop(WithoutFirst(s, n, drop)[i])
  {
    if n > 0 {
      WithoutFirstNoneLeft(s, n - 1, drop);
    }
  }

  /** Text of digits and dropped characters keeps only digits. */
  lemma {:induction false} WithoutFirstOnlyDigits(s: string, n: nat, drop: char -> bool)
    requires n <= |s|
    requires forall i :: 0 <= i < n ==> IsDigit(s[i]) || drop(s[i])
    ensures AllDigits(WithoutFirst(s, n, drop))
  {
    if n > 0 {
      WithoutFirstOnlyDigits(s, n - 1, drop);
      if !drop(s[n - 1]) {
        AllDigitsPush(WithoutFirst(s, n - 1, drop), s[n - 1]);
      } else {
        assert WithoutFirst(s, n, drop) == WithoutFirst(s, n - 1, drop) + [];
      }
    }
  }

  /** Splitting `s` into a part `drop` keeps, a part it removes and the rest. */
  lemma KeepDropRest(p: string, m: string, q: string, drop: char -> bool)
    requires forall i :: 0 <= i < |p| ==> !drop(p[i])
    requires forall i :: 0 <= i < |m| ==> drop(m[i])
    ensures Without(p + m + q, drop) == p + Without(q, drop)
  {
    WithoutAppend(p + m, q, drop);
    WithoutAppend(p, m, drop);
    WithoutKeepsAll(p, drop);
    WithoutDropsAll(m, drop);
    assert Without(p + m, drop) == p + [] == p;
  }

  /**
   * The lines of `splitlines()` hold exactly the text's characters other
   * than the line boundaries, in order.
   */
  lemma {:induction false} SplitLinesKeepsText(s: string)
    ensures Concat(SplitLines(s)) == Without(s, IsLineBreak)
    decreases |s|
  {
    if s != [] {
      var j := FirstWhere(s, 0, IsLineBreak);
      if j == |s| {
        WithoutKeepsAll(s, IsLineBreak);
      } else {
        var next := if s[j] == '\r' && j + 1 < |s| && s[j + 1] == '\n' then j + 2 else j + 1;
        assert s == s[..j] + s[j..next] + s[next..];
        KeepDropRest(s[..j], s[j..next], s[next..], IsLineBreak);
        SplitLinesKeepsText(s[next..]);
        assert SplitLines(s) == [s[..j]] + SplitLines(s[next..]);
        assert ([s[..j]] + SplitLines(s[next..]))[1..] == SplitLines(s[next..]);
      }
    }
  }

  /** The tokens of `re.split(r"\s+", s)` hold exactly the non-space characters of `s`. */
  lemma {:induction false} SplitWsKeepsText(s: string)
    ensures Concat(SplitWs(s)) == Without(s, IsSpace)
    decreases |s|
  {
    var j := FirstWhere(s, 0, IsSpace);
    if j == |s| {
      WithoutKeepsAll(s, IsSpace);
      assert Concat([s]) == s + Concat([]);
    } else {
      var next := SkipSpaces(s, j);
      assert s == s[..j] + s[j..next] + s[next..];
      KeepDropRest(s[..j], s[j..next], s[next..], IsSpace);
      SplitWsKeepsText(s[next..]);
      assert ([s[..j]] + SplitWs(s[next..]))[1..] == SplitWs(s[next..]);
    }
  }

  /** Collapsing whitespace keeps every non-space character, in order. */
  lemma {:induction false} CollapseKeepsText(s: string)
    ensures Without(CollapseSpaces(s), IsSpace) == Without(s, IsSpace)
    decreases |s|
  {
    if s != [] {
      if IsSpace(s[0]) {
        var next := SkipSpaces(s, 0);
        assert s == s[..next] + s[next..];
        WithoutAppend(s[..next], s[next..], IsSpace);
        WithoutDropsAll(s[..next], IsSpace);
        WithoutAppend(" ", CollapseSpaces(s[next..]), IsSpace);
        CollapseKeepsText(s[next..]);
      } else {
        assert s == [s[0]] + s[1..];
        WithoutAppend([s[0]], s[1..], IsSpace);
        WithoutAppend([s[0]], CollapseSpaces(s[1..]), IsSpace);
        CollapseKeepsText(s[1..]);
      }
    }
  }

  /** After collapsing, the only whitespace is single blanks: no two whitespace characters touch. */
  lemma {:induction false} CollapseSingleBlanks(s: string)
    ensures forall i :: 0 <= i < |CollapseSpaces(s)| && IsSpace(CollapseSpaces(s)[i]) ==> CollapseSpaces(s)[i] == ' '
    ensures forall i :: 0 <= i < |CollapseSpaces(s)| - 1 ==> !(IsSpace(CollapseSpaces(s)[i]) && IsSpace(CollapseSpaces(s)[i + 1]))
    decreases |s|
  {
    if s != [] {
      if IsSpace(s[0]) {
        var next := SkipSpaces(s, 0);
        CollapseSingleBlanks(s[next..]);
        var rest := CollapseSpaces(s[next..]);
        assert CollapseSpaces(s) == " " + rest;
        assert rest != [] ==> !IsSpace(rest[0]);
      } else {
        CollapseSingleBlanks(s[1..]);
        assert CollapseSpaces(s) == [s[0]] + CollapseSpaces(s[1..]);
      }
    }
  }

  /** `FirstWhere` on a suffix is `FirstWhere` on the whole text, shifted. */
  lemma {:induction false} FirstWhereShift(s: string, j: nat, i: nat, stop: char -> bool)
    requires j + i <= |s|
    ensures FirstWhere(s[j..], i, stop) + j == FirstWhere(s, j + i, stop)
    decreases |s| - j - i
  {
    if j + i < |s| {
      assert s[j..][i] == s[j + i];
      if !stop(s[j + i]) {
        FirstWhereShift(s, j, i + 1, stop);
      }
    }
  }

  /** `Join` on a sequence with a first element and at least one more. */
  lemma JoinCons(t: string, ts: seq<string>, sep: string)
    requires ts != []
    ensures Join([t] + ts, sep) == t + sep + Join(ts, sep)
  {
    assert ([t] + ts)[1..] == ts;
  }

  /** `Interleave` on a first piece and gap followed by the rest. */
  lemma InterleaveCons(t: string, g: string, ts: seq<string>, gaps: seq<string>)
    requires |gaps| + 1 == |ts|
    ensures Interleave([t] + ts, [g] + gaps) == t + g + Interleave(ts, gaps)
  {
    assert ([t] + ts)[1..] == ts && ([g] + gaps)[1..] == gaps;
  }

  /** One step of `splitlines()` at a `\n`: the line before it, then the lines of the rest. */
  lemma SplitLinesStep(s: string, j: nat)
    requires j == FirstWhere(s, 0, IsLineBreak) && j < |s| && s[j] == '\n'
    ensures SplitLines(s) == [s[..j]] + SplitLines(s[j + 1..])
  {
  }

  /** `splitlines()` of a non-empty text has a line. */
  lemma SplitLinesNonEmpty(s: string)
    requires s != []
    ensures SplitLines(s) != []
  {
  }

  /**
   * Where `splitlines()` splits: for text whose only line boundary is
   * `\n`, joining the lines with `\n` gives the text back, less a final
   * `\n`. So every boundary ends exactly one line, and blank lines stay
   * lines of their own.
   */
  lemma {:induction false} SplitLinesJoin(s: string)
    requires forall i :: 0 <= i < |s| && IsLineBreak(s[i]) ==> s[i] == '\n'
    ensures Join(SplitLines(s), "\n") == if s != [] && s[|s| - 1] == '\n' then s[..|s| - 1] else s
    decreases |s|
  {
    if s != [] {
      var j := FirstWhere(s, 0, IsLineBreak);
      if j == |s| {
        assert SplitLines(s) == [s];
        assert !IsLineBreak(s[|s| - 1]);
      } else {
        var r := s[j + 1..];
        NewlinesAfter(s, j, r);
        SplitLinesJoin(r);
        if r != [] {
          SplitLinesNonEmpty(r);
        }
        JoinAfter(s, j, r, SplitLines(r));
        SplitLinesStep(s, j);
        JoinLine(s, j, SplitLines(r));
      }
    }
  }

  /** `s` cut in three at `j` and `k`. */
  lemma Split3<T>(s: seq<T>, j: nat, k: nat)
    requires j <= k <= |s|
    ensures s == s[..j] + s[j..k] + s[k..]
  {
  }

  /** A prefix of `s` cut around its element at `j`. */
  lemma CutAt<T>(s: seq<T>, j: nat, e: nat)
    requires j < e <= |s|
    ensures s[..e] == s[..j] + [s[j]] + s[j + 1..e]
  {
  }

  /** What `SplitLinesJoin` asks of a text holds of every suffix of it. */
  lemma NewlinesAfter(s: string, j: nat, r: string)
    requires j < |s| && r == s[j + 1..]
    requires forall i :: 0 <= i < |s| && IsLineBreak(s[i]) ==> s[i] == '\n'
    ensures forall i :: 0 <= i < |r| && IsLineBreak(r[i]) ==> r[i] == '\n'
  {
    forall i | 0 <= i < |r| && IsLineBreak(r[i]) ensures r[i] == '\n' {
      assert r[i] == s[j + 1 + i];
    }
  }

  /** The join of the lines after the `\n` at `j`, in terms of `s`. */
  lemma JoinAfter(s: string, j: nat, r: string, rl: seq<string>)
    requires j < |s| && r == s[j + 1..]
    requires rl == [] <==> r == []
    requires Join(rl, "\n") == if r != [] && r[|r| - 1] == '\n' then r[..|r| - 1] else r
    ensures rl == [] <==> j == |s| - 1
    ensures Join(rl, "\n") == if j + 1 < |s| && s[|s| - 1] == '\n' then s[j + 1..|s| - 1] else s[j + 1..]
  {
    if r != [] {
      assert r[|r| - 1] == s[|s| - 1];
      assert r[..|r| - 1] == s[j + 1..|s| - 1];
    }
  }

  /** The join of the lines at a `\n` that ends the first line, `rl` being the lines after it. */
  lemma JoinLine(s: string, j: nat, rl: seq<string>)
    requires j < |s| && s[j] == '\n'
    requires rl == [] <==> j == |s| - 1
    requires Join(rl, "\n") == if j + 1 < |s| && s[|s| - 1] == '\n' then s[j + 1..|s| - 1] else s[j + 1..]
    ensures Join([s[..j]] + rl, "\n") == if s[|s| - 1] == '\n' then s[..|s| - 1] else s
  {
    if rl == [] {
      assert [s[..j]] + rl == [s[..j]];
    } else {
      JoinCons(s[..j], rl, "\n");
      if s[|s| - 1] == '\n' {
        CutAt(s, j, |s| - 1);
      } else {
        CutAt(s, j, |s|);
        assert s[..|s|] == s;
      }
    }
  }

  /** `\r\n` is one boundary and a blank line is a line: "a\r\n\nb" has the lines "a", "" and "b". */
  lemma SplitLinesExample()
    ensures SplitLines("a\r\n\nb") == ["a", "", "b"]
  {
    var s := "a\r\n\nb";
    assert FirstWhere(s, 1, IsLineBreak) == 1;
    assert FirstWhere(s, 0, IsLineBreak) == 1;
    assert s[..1] == "a" && s[3..] == "\nb";
    var t := "\nb";
    assert FirstWhere(t, 0, IsLineBreak) == 0;
    assert t[..0] == "" && t[1..] == "b";
    assert FirstWhere("b", 1, IsLineBreak) == 1;
    assert FirstWhere("b", 0, IsLineBreak) == 1;
    assert SplitLines("b") == ["b"];
    assert SplitLines(t) == [""] + ["b"];
    assert SplitLines(s) == ["a"] + SplitLines(t);
  }

  /** One step of `re.split(r"\s+", s)` at the first whitespace run. */
  lemma SplitWsStep(s: string, j: nat)
    requires j == FirstWhere(s, 0, IsSpace) && j < |s|
    ensures j < SkipSpaces(s, j) && Blank(s[j..SkipSpaces(s, j)])
    ensures SplitWs(s) == [s[..j]] + SplitWs(s[SkipSpaces(s, j)..])
  {
  }

  /** A blank gap in front of blank gaps. */
  lemma GapsCons(g: string, gaps: seq<string>)
    requires Blank(g) && forall k :: 0 <= k < |gaps| ==> Blank(gaps[k])
    ensures forall k :: 0 <= k < |[g] + gaps| ==> Blank(([g] + gaps)[k])
  {
  }

  /**
   * Where `re.split(r"\s+", s)` splits: `s` is its tokens with one
   * non-empty whitespace run between each two of them, and every token but
   * the first and the last is non-empty. With the tokens free of
   * whitespace, each gap is a whole whitespace run, which fixes the tokens:
   * only a leading or trailing run leaves an empty token at that end.
   */
  lemma {:induction false} SplitWsGaps(s: string) returns (gaps: seq<string>)
    ensures |gaps| + 1 == |SplitWs(s)|
    ensures forall k :: 0 <= k < |gaps| ==> Blank(gaps[k])
    ensures Interleave(SplitWs(s), gaps) == s
    ensures forall k :: 0 < k < |SplitWs(s)| - 1 ==> SplitWs(s)[k] != []
    decreases |s|
  {
    SplitWsInner(s);
    var j := FirstWhere(s, 0, IsSpace);
    if j == |s| {
      gaps := [];
    } else {
      SplitWsStep(s, j);
      var next := SkipSpaces(s, j);
      var rest := SplitWsGaps(s[next..]);
      gaps := [s[j..next]] + rest;
      InterleaveAt(s, j, next, SplitWs(s[next..]), rest);
      GapsCons(s[j..next], rest);
    }
  }

  /** The tokens between the first and the last are non-empty. */
  lemma {:induction false} SplitWsInner(s: string)
    ensures forall k :: 0 < k < |SplitWs(s)| - 1 ==> SplitWs(s)[k] != []
    decreases |s|
  {
    var j := FirstWhere(s, 0, IsSpace);
    if j < |s| {
      SplitWsStep(s, j);
      var t := s[SkipSpaces(s, j)..];
      SplitWsInner(t);
      if |SplitWs(t)| > 1 {
        FirstTokenNonEmpty(t);
      }
      forall k | 0 < k < |SplitWs(s)| - 1 ensures SplitWs(s)[k] != [] {
        assert SplitWs(s)[k] == SplitWs(t)[k - 1];
      }
    }
  }

  /** Text that starts with a non-space character starts with a non-empty token. */
  lemma FirstTokenNonEmpty(t: string)
    requires t != [] && !IsSpace(t[0])
    ensures SplitWs(t)[0] != []
  {
    var j := FirstWhere(t, 0, IsSpace);
    assert j > 0;
    if j < |t| {
      SplitWsStep(t, j);
    }
  }

  /** Pieces and gaps that give back `s` from `next` on, preceded by `s[..j]` and the gap `s[j..next]`, give back `s`. */
  lemma InterleaveAt(s: string, j: nat, next: nat, ts: seq<string>, gaps: seq<string>)
    requires j <= next <= |s| && |gaps| + 1 == |ts|
    requires Interleave(ts, gaps) == s[next..]
    ensures Interleave([s[..j]] + ts, [s[j..next]] + gaps) == s
  {
    InterleaveCons(s[..j], s[j..next], ts, gaps);
    Split3(s, j, next);
  }

  /** Text without whitespace passes through the collapse unchanged. */
  lemma {:induction false} CollapsePlain(p: string, q: string)
    requires NoSpace(p)
    ensures CollapseSpaces(p + q) == p + CollapseSpaces(q)
    decreases |p|
  {
    if p != [] {
      assert (p + q)[1..] == p[1..] + q;
      CollapsePlain(p[1..], q);
      assert p == [p[0]] + p[1..];
      Associative([p[0]], p[1..], CollapseSpaces(q));
    } else {
      assert p + q == q;
    }
  }

  /** A whitespace run starting at `j` becomes one blank. */
  lemma CollapseRun(s: string, j: nat)
    requires j < |s| && IsSpace(s[j])
    ensures CollapseSpaces(s[j..]) == " " + CollapseSpaces(s[SkipSpaces(s, j)..])
  {
    var t := s[j..];
    FirstWhereShift(s, j, 0, NotSpace);
    assert t[SkipSpaces(t, 0)..] == s[SkipSpaces(s, j)..];
  }

  /** The collapse at the first whitespace run: the text before it, one blank, then the rest collapsed. */
  lemma CollapseStep(s: string, j: nat)
    requires j == FirstWhere(s, 0, IsSpace) && j < |s|
    ensures CollapseSpaces(s) == s[..j] + " " + CollapseSpaces(s[SkipSpaces(s, j)..])
  {
    assert CollapseSpaces(s) == s[..j] + CollapseSpaces(s[j..]) by {
      assert s == s[..j] + s[j..];
      CollapsePlain(s[..j], s[j..]);
    }
    CollapseRun(s, j);
    Associative(s[..j], " ", CollapseSpaces(s[SkipSpaces(s, j)..]));
  }

  /**
   * `re.sub(r"\s+", " ", s)` is `" ".join(re.split(r"\s+", s))`: every
   * whitespace run, and only a whitespace run, becomes exactly one blank.
   */
  lemma {:induction false} CollapseIsJoin(s: string)
    ensures CollapseSpaces(s) == Join(SplitWs(s), " ")
    decreases |s|
  {
    var j := FirstWhere(s, 0, IsSpace);
    if j == |s| {
      CollapsePlain(s, []);
      assert s + [] == s;
      assert SplitWs(s) == [s];
    } else {
      SplitWsStep(s, j);
      var next := SkipSpaces(s, j);
      CollapseIsJoin(s[next..]);
      JoinCons(s[..j], SplitWs(s[next..]), " ");
      CollapseStep(s, j);
    }
  }
}
