/**
 * The first pass of `extract_metrics_from_text`: `re.search` of
 * `(?:label|label...)\s*\$?([-]?[0-9][0-9.,]*)` with `re.IGNORECASE` over the
 * text whose whitespace runs were collapsed to single blanks.
 *
 * The pattern needs no backtracking to be described: `\s*`, `\$?` and `[-]?`
 * are greedy, and giving any of them back leaves a blank, a `$` or a `-`
 * where the next item needs a `$`, a `-` or a digit, so the tail matches
 * exactly when the greedy reading reaches a digit. The search therefore
 * returns the group of the leftmost position where some label (tried in
 * order) is followed by a matching tail.
 */
module Pattern {
  import opened Wrappers
  import opened Text
  import opened Amount

  const IncomeLabels: seq<string> := ["Total for Income", "Total de ingresos"]
  const NetIncomeLabels: seq<string> := ["Net Income", "Utilidad neta", "Ingreso neto"]

  /** `name` occurs at `p` in `s`, letters compared without regard to case. */
  predicate LabelAt(s: string, p: nat, name: string) {
    p + |name| <= |s| && Lower(s[p..p + |name|]) == Lower(name)
  }

  /** The class `[0-9.,]`. */
  predicate AmountChar(c: char) { IsDigit(c) || c == '.' || c == ',' }

  predicate EndsAmount(c: char) { !AmountChar(c) }

  /** Texts of the shape `[-]?[0-9][0-9.,]*`. */
  predicate IsAmountText(c: string) {
    var d := if |c| > 0 && c[0] == '-' then 1 else 0;
    d < |c| && IsDigit(c[d]) && forall i :: d < i < |c| ==> AmountChar(c[i])
  }

  /**
   * Where the group starts once `\s*\$?` has been read from `q`: what is
   * read is whitespace and at most one final `$`, and the reading stops
   * only where neither a further blank nor a `$` can be taken, so the
   * position is the only one with that property.
   */
  function GroupStart(s: string, q: nat): (b: nat)
    requires q <= |s|
    ensures q <= b <= |s|
    ensures forall i :: q <= i < b ==> IsSpace(s[i]) || (i == b - 1 && s[i] == '$')
    ensures b < |s| && (IsSpace(s[b]) || s[b] == '$') ==> q < b && s[b - 1] == '$'
  {
    var a := SkipSpaces(s, q);
    if a < |s| && s[a] == '$' then a + 1 else a
  }

  /**
   * The group that `\s*\$?([-]?[0-9][0-9.,]*)` captures when it is matched
   * at `q`, or `None` when it does not match there.
   */
  function Capture(s: string, q: nat): (c: Option<string>)
    requires q <= |s|
    ensures c.Some? ==> IsAmountText(c.value)
    ensures c.Some? ==> var b := GroupStart(s, q);
      b + |c.value| <= |s| && s[b..b + |c.value|] == c.value &&
      (b + |c.value| == |s| || !AmountChar(s[b + |c.value|]))
  {
    var b := GroupStart(s, q);
    var d := if b < |s| && s[b] == '-' then b + 1 else b;
    if d < |s| && IsDigit(s[d]) then Some(s[b..FirstWhere(s, d + 1, EndsAmount)]) else None
  }

  /**
   * The tail matches whenever some reading of `\s*\$?` from `q` ends at a
   * `-` and a digit or at a digit: whichever way the whitespace and the
   * dollar sign are read, the group starts at that same position `b`.
   * With `Capture`'s own contract this is both directions of "the tail
   * matches at `q`", so the greedy reading loses no match.
   */
  lemma CaptureComplete(s: string, q: nat, b: nat)
    requires q <= b < |s|
    requires forall i :: q <= i < b ==> IsSpace(s[i]) || (i == b - 1 && s[i] == '$')
    requires IsDigit(s[b]) || (s[b] == '-' && b + 1 < |s| && IsDigit(s[b + 1]))
    ensures GroupStart(s, q) == b
    ensures Capture(s, q).Some?
  {
    var g := GroupStart(s, q);
    assert !IsSpace(s[b]) && s[b] != '$';
  }

  /** Matching one label at `p`: the label itself, then the tail after it. */
  function Attempt(s: string, p: nat): string -> Option<string> {
    name => if LabelAt(s, p, name) then Capture(s, p + |name|) else None
  }

  /** The alternation from the `k`-th label on: the first label whose `attempt` succeeds. */
  function FirstOf(attempt: string -> Option<string>, labels: seq<string>, k: nat): Option<string>
    decreases |labels| - k
  {
    if k >= |labels| then None
    else if attempt(labels[k]).Some? then attempt(labels[k])
    else FirstOf(attempt, labels, k + 1)
  }

  /** The whole pattern matched at `p`: the group it captures there, if any. */
  function MatchAt(s: string, p: nat, labels: seq<string>): Option<string>
    requires p <= |s|
  {
    FirstOf(Attempt(s, p), labels, 0)
  }

  /** `re.search` from position `p`: the group of the leftmost match. */
  function Search(s: string, p: nat, labels: seq<string>): Option<string>
    requires p <= |s|
    decreases |s| - p
  {
    match MatchAt(s, p, labels)
    case Some(c) => Some(c)
    case None => if p == |s| then None else Search(s, p + 1, labels)
  }

  /**
   * The value the first pass gives a metric from the flattened text:
   * `parse_amount` of the group of the leftmost match; a group that does not
   * parse gives nothing, even if a later match would.
   */
  function RegexValue(flat: string, labels: seq<string>): Option<real> {
    match Search(flat, 0, labels)
    case None => None
    case Some(c) => ParseAmount(c)
  }

  /**
   * After a label, `\s*\$?` takes the blank and the dollar sign and the group
   * stops at the first character outside `[0-9.,]`; a blank after the
   * dollar sign leaves nothing to capture.
   */
  lemma CaptureExamples()
    ensures Capture(" $-1,200 x", 0) == Some("-1,200")
    ensures Capture(" $ 5", 0) == None
  {
    var s := " $-1,200 x";
    assert FirstWhere(s, 1, NotSpace) == 1;
    assert GroupStart(s, 0) == 2;
    assert FirstWhere(s, 8, EndsAmount) == 8;
    assert FirstWhere(s, 6, EndsAmount) == 8;
    assert FirstWhere(s, 4, EndsAmount) == 8;
    assert s[2..8] == "-1,200";
    var t := " $ 5";
    assert FirstWhere(t, 1, NotSpace) == 1;
    assert GroupStart(t, 0) == 2;
  }

  /** The label is found whatever its case: `NET INCOME 5` matches the net income pattern. */
  lemma LabelCaseExample()
    ensures MatchAt("NET INCOME 5", 0, NetIncomeLabels) == Some("5")
  {
    var s := "NET INCOME 5";
    assert Lower(s[0..10]) == Lower("Net Income");
    assert FirstWhere(s, 10, NotSpace) == 11;
    assert FirstWhere(s, 12, EndsAmount) == 12;
    assert s[11..12] == "5";
    assert Capture(s, 10) == Some("5");
    assert LabelAt(s, 0, NetIncomeLabels[0]);
    assert Attempt(s, 0)(NetIncomeLabels[0]) == Some("5");
  }

  // ---------------------------------------------------------------------
  // What the search promises.

  /**
   * The alternation succeeds exactly when the attempt of one of the labels
   * from `k` on does, and then it gives the result of the first such label.
   */
  lemma {:induction false} FirstOfFirst(attempt: string -> Option<string>, labels: seq<string>, k: nat)
    decreases |labels| - k
    ensures FirstOf(attempt, labels, k).Some? <==> exists j :: k <= j < |labels| && attempt(labels[j]).Some?
    ensures FirstOf(attempt, labels, k).Some? ==>
      exists j :: k <= j < |labels| && attempt(labels[j]) == FirstOf(attempt, labels, k) &&
        (forall i :: k <= i < j ==> attempt(labels[i]).None?)
  {
    if k < |labels| && attempt(labels[k]).None? {
      FirstOfFirst(attempt, labels, k + 1);
    }
  }

  /** The pattern matches at `p` by one of the labels, the first one whose tail matches after it. */
  lemma MatchAtLabel(s: string, p: nat, labels: seq<string>)
    requires p <= |s|
    requires MatchAt(s, p, labels).Some?
    ensures exists j :: (0 <= j < |labels| && LabelAt(s, p, labels[j]) &&
      Capture(s, p + |labels[j]|) == MatchAt(s, p, labels) &&
      forall i :: 0 <= i < j ==> !(LabelAt(s, p, labels[i]) && Capture(s, p + |labels[i]|).Some?))
  {
    FirstOfFirst(Attempt(s, p), labels, 0);
  }

  /** The search fails exactly when the pattern matches nowhere from `p` on. */
  lemma {:induction false} SearchNone(s: string, p: nat, labels: seq<string>)
    requires p <= |s|
    decreases |s| - p
    ensures Search(s, p, labels).None? <==> forall q :: p <= q <= |s| ==> MatchAt(s, q, labels).None?
  {
    if MatchAt(s, p, labels).None? && p < |s| {
      SearchNone(s, p + 1, labels);
    }
  }

  /** A found group is the one of a match with no match further left. */
  lemma {:induction false} SearchLeftmost(s: string, p: nat, labels: seq<string>)
    requires p <= |s|
    requires Search(s, p, labels).Some?
    decreases |s| - p
    ensures exists q :: (p <= q <= |s| && MatchAt(s, q, labels) == Search(s, p, labels) &&
      forall r :: p <= r < q ==> MatchAt(s, r, labels).None?)
  {
    if MatchAt(s, p, labels).None? {
      SearchLeftmost(s, p + 1, labels);
      var q :| p + 1 <= q <= |s| && MatchAt(s, q, labels) == Search(s, p + 1, labels) &&
        forall r :: p + 1 <= r < q ==> MatchAt(s, r, labels).None?;
      assert forall r :: p <= r < q ==> MatchAt(s, r, labels).None?;
    }
  }

  /** A group the search finds is the capture right after one of the labels. */
  lemma SearchCapture(s: string, labels: seq<string>)
    requires Search(s, 0, labels).Some?
    ensures exists q, j :: (0 <= q <= |s| && 0 <= j < |labels| && LabelAt(s, q, labels[j]) &&
      Capture(s, q + |labels[j]|) == Search(s, 0, labels))
  {
    SearchLeftmost(s, 0, labels);
    var q :| 0 <= q <= |s| && MatchAt(s, q, labels) == Search(s, 0, labels);
    MatchAtLabel(s, q, labels);
  }

  /** Whatever the first pass reads for a metric is `parse_amount` of an amount text found after a label. */
  lemma RegexValueSource(flat: string, labels: seq<string>, v: real)
    requires RegexValue(flat, labels) == Some(v)
    ensures exists q, j :: (0 <= q <= |flat| && 0 <= j < |labels| && LabelAt(flat, q, labels[j]) &&
      Capture(flat, q + |labels[j]|) == Search(flat, 0, labels))
    ensures var c := Search(flat, 0, labels).value;
      IsAmountText(c) && ParseAmount(c) == Some(v)
  {
    SearchCapture(flat, labels);
    var q, j :| 0 <= q <= |flat| && 0 <= j < |labels| && LabelAt(flat, q, labels[j]) &&
      Capture(flat, q + |labels[j]|) == Search(flat, 0, labels);
  }

  /** The first pass gives nothing when the pattern matches nowhere. */
  lemma RegexValueNone(flat: string, labels: seq<string>)
    requires forall q :: 0 <= q <= |flat| ==> MatchAt(flat, q, labels).None?
    ensures RegexValue(flat, labels) == None
  {
    SearchNone(flat, 0, labels);
  }
}
