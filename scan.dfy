/**
 * The forward scan for a value below a label (`scan_for_number`, nested in
 * `extract_metrics_from_text`): it reads the next ten lines, collects every
 * whitespace-separated token that carries a digit and parses, and returns
 * the candidate of largest magnitude, the earliest one on ties.
 *
 * The scan is written once for any token reader `read` and used with
 * `TokenValue`, the program's digit test followed by `parse_amount`; what
 * the scan promises does not depend on how a token is read.
 */
module Scan {
  import opened Wrappers
  import opened Text
  import opened Amount

  /** How many lines the scan reads, counting from its start line. */
  const LookAhead: nat := 10

  /** End (exclusive) of the window that starts at `start`: `min(len(lines), start + 10)`. */
  function WindowEnd(count: nat, start: nat): (stop: nat)
    ensures stop <= count && stop <= start + LookAhead
    ensures stop == count || stop == start + LookAhead
  {
    if count < start + LookAhead then count else start + LookAhead
  }

  /** A token is considered when `\d` finds a digit in it, and counts when it parses. */
  function TokenValue(token: string): Option<real> {
    if HasDigit(token) then ParseAmount(token) else None
  }

  /** The values `read` finds in the first `n` tokens, in order. */
  function Collect(tokens: seq<string>, n: nat, read: string -> Option<real>): seq<real>
    requires n <= |tokens|
  {
    if n == 0 then []
    else
      match read(tokens[n - 1])
      case Some(v) => Collect(tokens, n - 1, read) + [v]
      case None => Collect(tokens, n - 1, read)
  }

  /** The tokens of a non-blank stripped line once its currency glyphs are gone. */
  function LineTokens(candidate: string): seq<string> {
    SplitWs(RemoveCurrency(candidate))
  }

  /** Candidates on one line: none on a blank line, else the values of its tokens. */
  function LineValues(line: string, read: string -> Option<real>): seq<real> {
    var candidate := Strip(line);
    if candidate == [] then [] else Collect(LineTokens(candidate), |LineTokens(candidate)|, read)
  }

  /** `LineValues` for a fixed token reader, as a function of the line. */
  function LineReader(read: string -> Option<real>): string -> seq<real> {
    line => LineValues(line, read)
  }

  /** Candidates of the lines `lo .. hi - 1`, line after line, `values` giving each line's. */
  function Gather(lines: seq<string>, lo: nat, hi: nat, values: string -> seq<real>): seq<real>
    requires hi <= |lines| || hi <= lo
  {
    if hi <= lo then [] else Gather(lines, lo, hi - 1, values) + values(lines[hi - 1])
  }

  /** Everything a scan from `start` collects. */
  function Found(lines: seq<string>, start: nat, read: string -> Option<real>): seq<real> {
    Gather(lines, start, WindowEnd(|lines|, start), LineReader(read))
  }

  function Abs(x: real): real {
    if x < 0.0 then -x else x
  }

  /**
   * Index of `max(vs[..n], key=abs)`: Python's `max` keeps the element it
   * has and replaces it only by a strictly larger key, so the first element
   * of largest magnitude wins.
   */
  function ArgMaxAbs(vs: seq<real>, n: nat): (k: nat)
    requires 0 < n <= |vs|
    ensures k < n
    ensures forall j :: 0 <= j < n ==> Abs(vs[j]) <= Abs(vs[k])
    ensures forall j :: 0 <= j < k ==> Abs(vs[j]) < Abs(vs[k])
  {
    if n == 1 then 0
    else
      var k := ArgMaxAbs(vs, n - 1);
      if Abs(vs[n - 1]) > Abs(vs[k]) then n - 1 else k
  }

  /** No candidate gives `None`, else the first candidate of largest magnitude. */
  function Pick(vs: seq<real>): (r: Option<real>)
    ensures r.None? <==> vs == []
    ensures r.Some? ==> r.value in vs && forall v :: v in vs ==> Abs(v) <= Abs(r.value)
  {
    if vs == [] then None else Some(vs[ArgMaxAbs(vs, |vs|)])
  }

  /** What `scan_for_number(start)` returns. */
  function Locate(lines: seq<string>, start: nat): Option<real> {
    Pick(Found(lines, start, TokenValue))
  }

  /** `scan_for_number(start)`. */
  method ScanForNumber(lines: seq<string>, start: nat) returns (r: Option<real>)
    ensures r == Locate(lines, start)
  {
    r := ScanWith(lines, start, TokenValue);
  }

  /**
   * The scan's loops, over the window's lines and over each line's tokens,
   * then the first candidate of largest magnitude. A start past the last
   * line gives an empty window, as an empty `range` does.
   */
  method ScanWith(lines: seq<string>, start: nat, read: string -> Option<real>) returns (r: Option<real>)
    ensures r == Pick(Found(lines, start, read))
  {
    var numbers: seq<real> := [];
    var stop := WindowEnd(|lines|, start);
    var last := if stop < start then start else stop;
    var j := start;
    while j < last
      invariant start <= j <= last
      invariant numbers == Gather(lines, start, j, LineReader(read))
    {
      GatherNext(lines, start, j, read);
      var candidate := Strip(lines[j]);
      if candidate == [] {
        assert numbers + [] == numbers;
        j := j + 1;
        continue;
      }
      numbers := AppendTokenValues(numbers, LineTokens(candidate), read);
      j := j + 1;
    }
    if numbers == [] {
      return None;
    }
    return Some(numbers[ArgMaxAbs(numbers, |numbers|)]);
  }

  /** One more line of the window adds that line's candidates at the end. */
  lemma GatherNext(lines: seq<string>, lo: nat, j: nat, read: string -> Option<real>)
    requires lo <= j < |lines|
    ensures Gather(lines, lo, j + 1, LineReader(read)) == Gather(lines, lo, j, LineReader(read)) + LineValues(lines[j], read)
  {
  }

  /** The inner loop of the scan: appends, token by token, every value `read` accepts. */
  method AppendTokenValues(numbers: seq<real>, tokens: seq<string>, read: string -> Option<real>)
    returns (extended: seq<real>)
    ensures extended == numbers + Collect(tokens, |tokens|, read)
  {
    extended := numbers;
    var t := 0;
    while t < |tokens|
      invariant t <= |tokens|
      invariant extended == numbers + Collect(tokens, t, read)
    {
      ghost var seen := Collect(tokens, t, read);
      var num := read(tokens[t]);
      if num.Some? {
        extended := extended + [num.value];
        Associative(numbers, seen, [num.value]);
      } else {
        assert seen + [] == seen;
      }
      t := t + 1;
    }
  }

  // ---------------------------------------------------------------------
  // What the scan promises.

  /** A value is collected exactly when `read` finds it in one of the tokens. */
  lemma {:induction false} CollectMember(tokens: seq<string>, n: nat, read: string -> Option<real>, v: real)
    requires n <= |tokens|
    ensures v in Collect(tokens, n, read) <==> exists t :: 0 <= t < n && read(tokens[t]) == Some(v)
  {
    if n > 0 {
      CollectMember(tokens, n - 1, read, v);
    }
  }

  /** A value is gathered exactly when it is a candidate of one of the lines. */
  lemma {:induction false} GatherMember(lines: seq<string>, lo: nat, hi: nat, values: string -> seq<real>, v: real)
    requires hi <= |lines| || hi <= lo
    ensures v in Gather(lines, lo, hi, values) <==> exists j :: lo <= j < hi && v in values(lines[j])
  {
    if hi > lo {
      GatherMember(lines, lo, hi - 1, values, v);
      var last := values(lines[hi - 1]);
      assert Gather(lines, lo, hi, values) == Gather(lines, lo, hi - 1, values) + last;
      if v in last {
        assert lo <= hi - 1 < hi && v in values(lines[hi - 1]);
      }
      if exists j :: lo <= j < hi && v in values(lines[j]) {
        var j :| lo <= j < hi && v in values(lines[j]);
        assert j < hi - 1 ==> lo <= j < hi - 1;
      }
    }
  }

  /**
   * The scan from `start` finds nothing exactly when no line of the window
   * `start .. min(len, start + 10) - 1` holds a token that `read` accepts.
   */
  lemma FoundNone(lines: seq<string>, start: nat, read: string -> Option<real>)
    ensures Pick(Found(lines, start, read)).None? <==>
      forall j :: start <= j < WindowEnd(|lines|, start) ==> LineValues(lines[j], read) == []
  {
    var stop := WindowEnd(|lines|, start);
    if Found(lines, start, read) == [] {
      forall j | start <= j < stop ensures LineValues(lines[j], read) == [] {
        if LineValues(lines[j], read) != [] {
          GatherMember(lines, start, stop, LineReader(read), LineValues(lines[j], read)[0]);
        }
      }
    } else {
      GatherMember(lines, start, stop, LineReader(read), Found(lines, start, read)[0]);
    }
  }

  /**
   * A value the scan from `start` returns comes from a line of its window,
   * has the largest magnitude of all candidates there, and no earlier
   * candidate has the same magnitude.
   */
  lemma FoundSome(lines: seq<string>, start: nat, read: string -> Option<real>, v: real)
    requires Pick(Found(lines, start, read)) == Some(v)
    ensures exists j :: start <= j < WindowEnd(|lines|, start) && v in LineValues(lines[j], read)
    ensures forall w :: w in Found(lines, start, read) ==> Abs(w) <= Abs(v)
    ensures var vs := Found(lines, start, read);
      exists k :: 0 <= k < |vs| && vs[k] == v && forall i :: 0 <= i < k ==> Abs(vs[i]) < Abs(v)
  {
    var vs := Found(lines, start, read);
    GatherMember(lines, start, WindowEnd(|lines|, start), LineReader(read), v);
    var k := ArgMaxAbs(vs, |vs|);
    assert vs[k] == v;
  }

  /** A line's candidates are the values of its tokens that `read` accepts; a blank line has none. */
  lemma LineValuesMember(line: string, read: string -> Option<real>, v: real)
    ensures v in LineValues(line, read) <==>
      Strip(line) != [] &&
      var tokens := LineTokens(Strip(line));
      exists t :: 0 <= t < |tokens| && read(tokens[t]) == Some(v)
  {
    if Strip(line) != [] {
      var tokens := LineTokens(Strip(line));
      CollectMember(tokens, |tokens|, read, v);
    }
  }

  /**
   * For the program's reader: `scan_for_number(start)` is `None` exactly
   * when no line of the window has a token with a digit that parses.
   */
  lemma LocateNone(lines: seq<string>, start: nat)
    ensures Locate(lines, start).None? <==>
      forall j :: start <= j < WindowEnd(|lines|, start) ==> LineValues(lines[j], TokenValue) == []
  {
    FoundNone(lines, start, TokenValue);
  }

  /** For the program's reader: a value found comes from the window and is a first largest magnitude. */
  lemma LocateSome(lines: seq<string>, start: nat, v: real)
    requires Locate(lines, start) == Some(v)
    ensures exists j :: start <= j < WindowEnd(|lines|, start) && v in LineValues(lines[j], TokenValue)
    ensures forall w :: w in Found(lines, start, TokenValue) ==> Abs(w) <= Abs(v)
  {
    FoundSome(lines, start, TokenValue, v);
  }

  /**
   * Below a label on line `i` the scan starts at `i + 1`: a value it finds
   * is on one of the lines `i + 1 .. i + 10`, never eleven lines down.
   */
  lemma BelowLabel(lines: seq<string>, i: nat, v: real)
    requires Locate(lines, i + 1) == Some(v)
    ensures exists j :: i < j <= i + LookAhead && j < |lines| && v in LineValues(lines[j], TokenValue)
  {
    FoundSome(lines, i + 1, TokenValue, v);
  }

  /** Magnitude decides and the sign does not: among 100, -500 and 42 the scan keeps -500. */
  lemma MaxAbsExample()
    ensures Pick([100.0, -500.0, 42.0]) == Some(-500.0)
  {
    var vs := [100.0, -500.0, 42.0];
    assert ArgMaxAbs(vs, 1) == 0;
    assert ArgMaxAbs(vs, 2) == 1;
    assert ArgMaxAbs(vs, 3) == 1;
  }

  /** On a tie in magnitude the earlier candidate stays. */
  lemma TieExample()
    ensures Pick([500.0, -500.0]) == Some(500.0)
  {
    var vs := [500.0, -500.0];
    assert ArgMaxAbs(vs, 1) == 0;
    assert ArgMaxAbs(vs, 2) == 0;
  }

  /** Nothing to pick gives `None`. */
  lemma EmptyExample()
    ensures Pick([]) == None
  {
  }
}
