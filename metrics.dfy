/**
 * `extract_metrics_from_text`: the regular-expression pass for income and
 * net income, the line-by-line fallback that scans below each label, and
 * the derived result (total expenses and margin).
 *
 * The metrics dictionary, whose keys always exist and hold `None` until a
 * value is found, is a `map<Metric, real>` in which a missing key stands
 * for `None`. The result dictionary is a `map<string, real>` keyed by the
 * names the program writes.
 */
module Metrics {
  import opened Wrappers
  import opened Text
  import opened Amount
  import opened Scan
  import opened Pattern

  datatype Metric = Income | Cogs | Expenses | OtherExpenses | NetIncome

  /** The metrics in the order of the dictionary, which is the order the line scan tries them. */
  const Order: seq<Metric> := [Income, Cogs, Expenses, OtherExpenses, NetIncome]

  const AllMetrics: set<Metric> := {Income, Cogs, Expenses, OtherExpenses, NetIncome}

  /** Position of a metric in `Order`. */
  function Index(m: Metric): (k: nat)
    ensures k < |Order| && Order[k] == m
    ensures forall j :: 0 <= j < |Order| && Order[j] == m ==> j == k
  {
    match m
    case Income => 0
    case Cogs => 1
    case Expenses => 2
    case OtherExpenses => 3
    case NetIncome => 4
  }

  /** What the metrics dictionary holds for `m`: `None` when no value was found. */
  function Lookup<K, V>(metrics: map<K, V>, m: K): Option<V> {
    if m in metrics then Some(metrics[m]) else None
  }

  // ---------------------------------------------------------------------
  // The regular-expression pass.

  /** The metrics the first pass looks for, each with its label alternatives. */
  const Patterns: seq<(Metric, seq<string>)> := [(Income, IncomeLabels), (NetIncome, NetIncomeLabels)]

  /** What the first pass gives for a pattern's labels on the flattened text. */
  function PatternReader(flat: string): seq<string> -> Option<real> {
    labels => RegexValue(flat, labels)
  }

  /** The metrics after the first `n` patterns, `read` giving each pattern's value. */
  function PatternsUpTo(read: seq<string> -> Option<real>, n: nat): map<Metric, real>
    requires n <= |Patterns|
  {
    if n == 0 then map[]
    else
      var metrics := PatternsUpTo(read, n - 1);
      match read(Patterns[n - 1].1)
      case Some(v) => metrics[Patterns[n - 1].0 := v]
      case None => metrics
  }

  /** The metrics after the first pass. */
  function RegexPass(flat: string): map<Metric, real> {
    PatternsUpTo(PatternReader(flat), |Patterns|)
  }

  /** The loop over the patterns. */
  method ApplyPatterns(flat: string) returns (metrics: map<Metric, real>)
    ensures metrics == RegexPass(flat)
  {
    metrics := map[];
    for p := 0 to |Patterns|
      invariant metrics == PatternsUpTo(PatternReader(flat), p)
    {
      var (key, labels) := Patterns[p];
      metrics := ApplyPattern(flat, key, labels, metrics);
    }
  }

  /**
   * One pattern's turn: `re.search`, then `parse_amount` of the group when
   * the pattern matches; a value read is stored under the pattern's metric.
   */
  method ApplyPattern(flat: string, key: Metric, labels: seq<string>, metrics: map<Metric, real>)
    returns (updated: map<Metric, real>)
    ensures updated == match RegexValue(flat, labels)
      case Some(v) => metrics[key := v]
      case None => metrics
  {
    var found := Search(flat, 0, labels);
    var amount: Option<real> := None;
    if found.Some? {
      amount := ParseAmount(found.value);
    }
    assert amount == RegexValue(flat, labels);
    match amount {
      case Some(v) => updated := metrics[key := v];
      case None => updated := metrics;
    }
  }

  /**
   * The first pass gives income and net income the values of their
   * patterns, when those parse, and nothing else.
   */
  lemma PatternsValues(read: seq<string> -> Option<real>)
    ensures Lookup(PatternsUpTo(read, |Patterns|), Income) == read(IncomeLabels)
    ensures Lookup(PatternsUpTo(read, |Patterns|), NetIncome) == read(NetIncomeLabels)
    ensures Cogs !in PatternsUpTo(read, |Patterns|)
    ensures Expenses !in PatternsUpTo(read, |Patterns|)
    ensures OtherExpenses !in PatternsUpTo(read, |Patterns|)
  {
    var first := PatternsUpTo(read, 1);
    assert first == if read(IncomeLabels).Some? then map[Income := read(IncomeLabels).value] else map[];
    assert PatternsUpTo(read, 2) ==
      if read(NetIncomeLabels).Some? then first[NetIncome := read(NetIncomeLabels).value] else first;
  }

  /**
   * After the first pass, income and net income hold their pattern values;
   * the cost of goods sold is never found there, so the line scan always
   * runs.
   */
  lemma RegexPassValues(flat: string)
    ensures Lookup(RegexPass(flat), Income) == RegexValue(flat, IncomeLabels)
    ensures Lookup(RegexPass(flat), NetIncome) == RegexValue(flat, NetIncomeLabels)
    ensures Cogs !in RegexPass(flat) && Expenses !in RegexPass(flat) && OtherExpenses !in RegexPass(flat)
    ensures !(AllMetrics <= RegexPass(flat).Keys)
  {
    PatternsValues(PatternReader(flat));
  }

  // ---------------------------------------------------------------------
  // The line-by-line fallback.

  /** The label keywords of each metric, in lower case. */
  function Keywords(m: Metric): seq<string> {
    match m
    case Income => ["total for income", "total de ingresos"]
    case Cogs => ["total for cost of goods sold", "costo de ventas", "total del costo de ventas"]
    case Expenses => ["total for expenses", "total de gastos"]
    case OtherExpenses => ["total for other expenses", "otros gastos"]
    case NetIncome => ["net income", "utilidad neta", "ingreso neto"]
  }

  /** `s.startswith(prefix)`. */
  predicate StartsWith(s: string, prefix: string) {
    |prefix| <= |s| && s[..|prefix|] == prefix
  }

  /** `line.strip().lower()`. */
  function LowerLine(line: string): string {
    Lower(Strip(line))
  }

  /** The lowered line starts with one of `keywords`. */
  predicate StartsWithAny(lower: string, keywords: seq<string>) {
    exists k :: 0 <= k < |keywords| && StartsWith(lower, keywords[k])
  }

  /** The lowered line starts with one of the keywords of `m`. */
  predicate Labelled(lower: string, m: Metric) {
    StartsWithAny(lower, Keywords(m))
  }

  /** For each line index, the metrics that line is labelled for. */
  function LabelsOf(lines: seq<string>): nat -> Metric -> bool {
    (i: nat) => (m: Metric) => i < |lines| && Labelled(LowerLine(lines[i]), m)
  }

  /** The lines labelled for `m`, by index. */
  function LabelledFor(labels: nat -> Metric -> bool, m: Metric): nat -> bool {
    (i: nat) => labels(i)(m)
  }

  /** `scan_for_number` over `lines`, as a function of the start line. */
  function ScanFrom(lines: seq<string>): nat -> Option<real> {
    (k: nat) => Locate(lines, k)
  }

  /**
   * One metric's turn on a line whose labels are `labelled` and whose scan
   * gives `value`: a metric that has a value is skipped, and a labelled one
   * takes the value when the scan found one.
   */
  function Step(metrics: map<Metric, real>, m: Metric, labelled: Metric -> bool, value: Option<real>): map<Metric, real> {
    if m in metrics || !labelled(m) || value.None? then metrics else metrics[m := value.value]
  }

  /** The turns of the first `n` metrics of `Order` on one line. */
  function Steps(metrics: map<Metric, real>, labelled: Metric -> bool, value: Option<real>, n: nat): map<Metric, real>
    requires n <= |Order|
  {
    if n == 0 then metrics else Step(Steps(metrics, labelled, value, n - 1), Order[n - 1], labelled, value)
  }

  /**
   * The metrics after the first `n` lines, starting from `init`, where
   * `labels(i)` are the metrics line `i` is labelled for and `locate(k)` is
   * what the scan from line `k` returns.
   */
  function ScanLines(labels: nat -> Metric -> bool, locate: nat -> Option<real>, init: map<Metric, real>, n: nat): map<Metric, real> {
    if n == 0 then init
    else Steps(ScanLines(labels, locate, init, n - 1), labels(n - 1), locate(n), |Order|)
  }

  /**
   * The reference reading of the line scan for one metric: the value below
   * the first of the first `n` lines that is `labelled` and whose scan finds
   * a value.
   */
  function FirstHit(labelled: nat -> bool, locate: nat -> Option<real>, n: nat): Option<real> {
    if n == 0 then None
    else
      var earlier := FirstHit(labelled, locate, n - 1);
      if earlier.Some? then earlier
      else if labelled(n - 1) then locate(n)
      else None
  }

  /** The loop over the lines, run when the first pass left a metric open. */
  method ScanLabels(lines: seq<string>, init: map<Metric, real>) returns (metrics: map<Metric, real>)
    ensures metrics == ScanLines(LabelsOf(lines), ScanFrom(lines), init, |lines|)
  {
    metrics := init;
    for i := 0 to |lines|
      invariant metrics == ScanLines(LabelsOf(lines), ScanFrom(lines), init, i)
    {
      metrics := ResolveLine(lines, i, metrics);
    }
  }

  /** The loop over the metrics on line `i`; a metric that has a value is skipped. */
  method ResolveLine(lines: seq<string>, i: nat, metrics: map<Metric, real>) returns (updated: map<Metric, real>)
    requires i < |lines|
    ensures updated == Steps(metrics, LabelsOf(lines)(i), ScanFrom(lines)(i + 1), |Order|)
  {
    var lowerLine := LowerLine(lines[i]);
    var current := metrics;
    for k := 0 to |Order|
      invariant current == Steps(metrics, LabelsOf(lines)(i), ScanFrom(lines)(i + 1), k)
    {
      current := MetricTurn(lines, i, lowerLine, Order[k], current);
    }
    updated := current;
  }

  /** One metric's turn on line `i`: a metric that has a value is skipped, else its keywords are tried. */
  method MetricTurn(lines: seq<string>, i: nat, lowerLine: string, key: Metric, metrics: map<Metric, real>)
    returns (updated: map<Metric, real>)
    requires i < |lines| && lowerLine == LowerLine(lines[i])
    ensures updated == Step(metrics, key, LabelsOf(lines)(i), ScanFrom(lines)(i + 1))
  {
    if key in metrics {
      updated := metrics;
    } else {
      updated := TryKeywords(lines, i, lowerLine, key, Keywords(key), metrics);
      TryIsStep(lines, i, key, metrics, ScanFrom(lines)(i + 1));
    }
  }

  /**
   * The loop over one metric's keywords: the first that starts the line
   * triggers the scan below it, whose value, if any, the metric takes, and
   * ends the loop. For an open metric this is its turn on the line
   * (`TryIsStep`).
   */
  method TryKeywords(lines: seq<string>, i: nat, lowerLine: string, key: Metric, keywords: seq<string>,
                     metrics: map<Metric, real>) returns (updated: map<Metric, real>)
    ensures updated == if StartsWithAny(lowerLine, keywords) && Locate(lines, i + 1).Some?
      then metrics[key := Locate(lines, i + 1).value] else metrics
  {
    updated := metrics;
    var w := 0;
    while w < |keywords|
      invariant w <= |keywords|
      invariant forall q :: 0 <= q < w ==> !StartsWith(lowerLine, keywords[q])
    {
      if StartsWith(lowerLine, keywords[w]) {
        var value := ScanForNumber(lines, i + 1);
        if value.Some? {
          updated := updated[key := value.value];
        }
        break;
      }
      w := w + 1;
    }
  }

  /** For an open metric, its turn on a line is decided by the line's keywords and the scan's value. */
  lemma TryIsStep(lines: seq<string>, i: nat, key: Metric, metrics: map<Metric, real>, value: Option<real>)
    requires i < |lines| && key !in metrics
    ensures Step(metrics, key, LabelsOf(lines)(i), value) ==
      if StartsWithAny(LowerLine(lines[i]), Keywords(key)) && value.Some? then metrics[key := value.value] else metrics
  {
    assert LabelsOf(lines)(i)(key) == StartsWithAny(LowerLine(lines[i]), Keywords(key));
  }

  /** One line changes, for each metric, only that metric's entry, and only when it was empty. */
  lemma {:induction false} StepsLookup(metrics: map<Metric, real>, labelled: Metric -> bool, value: Option<real>, n: nat, m: Metric)
    requires n <= |Order|
    ensures Lookup(Steps(metrics, labelled, value, n), m) ==
      if Index(m) < n && m !in metrics && labelled(m) then value else Lookup(metrics, m)
  {
    if n > 0 {
      StepsLookup(metrics, labelled, value, n - 1, m);
    }
  }

  /**
   * First wins: for each metric, the line scan keeps the value the metric
   * had on entry, and otherwise gives it the value below its first labelled
   * line whose scan finds one; later labels never overwrite it.
   */
  lemma {:induction false} FirstWins(labels: nat -> Metric -> bool, locate: nat -> Option<real>, init: map<Metric, real>, n: nat, m: Metric)
    ensures Lookup(ScanLines(labels, locate, init, n), m) ==
      if m in init then Some(init[m]) else FirstHit(LabelledFor(labels, m), locate, n)
  {
    if n > 0 {
      FirstWins(labels, locate, init, n - 1, m);
      StepsLookup(ScanLines(labels, locate, init, n - 1), labels(n - 1), locate(n), |Order|, m);
      assert LabelledFor(labels, m)(n - 1) == labels(n - 1)(m);
    }
  }

  /** No hit among the first `n` lines means no labelled line there has a scan that finds a value. */
  lemma {:induction false} FirstHitNone(labelled: nat -> bool, locate: nat -> Option<real>, n: nat)
    ensures FirstHit(labelled, locate, n).None? <==>
      forall j :: 0 <= j < n ==> !(labelled(j) && locate(j + 1).Some?)
  {
    if n > 0 {
      FirstHitNone(labelled, locate, n - 1);
    }
  }

  /**
   * The reference reading means what it says: a metric's value is the scan
   * below a labelled line, and no earlier labelled line has a scan that
   * finds a value.
   */
  lemma {:induction false} FirstHitMeaning(labelled: nat -> bool, locate: nat -> Option<real>, n: nat, v: real)
    ensures FirstHit(labelled, locate, n) == Some(v) <==>
      exists i :: 0 <= i < n && labelled(i) && locate(i + 1) == Some(v) &&
        forall j :: 0 <= j < i ==> !(labelled(j) && locate(j + 1).Some?)
  {
    if n > 0 {
      FirstHitMeaning(labelled, locate, n - 1, v);
      FirstHitNone(labelled, locate, n - 1);
    }
  }

  /** The line a hit comes from. */
  lemma {:induction false} FirstHitLine(labelled: nat -> bool, locate: nat -> Option<real>, n: nat, v: real) returns (i: nat)
    requires FirstHit(labelled, locate, n) == Some(v)
    ensures i < n && labelled(i) && locate(i + 1) == Some(v)
  {
    if FirstHit(labelled, locate, n - 1).Some? {
      i := FirstHitLine(labelled, locate, n - 1, v);
    } else {
      i := n - 1;
    }
  }

  // ---------------------------------------------------------------------
  // The whole extraction.

  /** Both passes, given the first pass's metrics and the lines' labels and scans. */
  function Combine(found: map<Metric, real>, labels: nat -> Metric -> bool, locate: nat -> Option<real>, n: nat): map<Metric, real> {
    if AllMetrics <= found.Keys then found else ScanLines(labels, locate, found, n)
  }

  /** The metrics dictionary once both passes are done. */
  function Resolve(text: string): map<Metric, real> {
    var lines := SplitLines(text);
    Combine(RegexPass(CollapseSpaces(text)), LabelsOf(lines), ScanFrom(lines), |lines|)
  }

  /**
   * A metric the first pass left open gets the value below its first
   * labelled line whose scan finds one; one it found keeps its value.
   */
  lemma CombineLookup(found: map<Metric, real>, labels: nat -> Metric -> bool, locate: nat -> Option<real>, n: nat, m: Metric)
    requires !(AllMetrics <= found.Keys)
    ensures Lookup(Combine(found, labels, locate, n), m) ==
      if m in found then Some(found[m]) else FirstHit(LabelledFor(labels, m), locate, n)
  {
    FirstWins(labels, locate, found, n, m);
  }

  /** The cost metrics come from the line scan alone: the first labelled line whose scan finds a value. */
  lemma ResolveCosts(text: string, m: Metric)
    requires m == Cogs || m == Expenses || m == OtherExpenses
    ensures var lines := SplitLines(text);
      Lookup(Resolve(text), m) == FirstHit(LabelledFor(LabelsOf(lines), m), ScanFrom(lines), |lines|)
  {
    var lines := SplitLines(text);
    var found := RegexPass(CollapseSpaces(text));
    RegexPassValues(CollapseSpaces(text));
    CombineLookup(found, LabelsOf(lines), ScanFrom(lines), |lines|, m);
  }

  /**
   * Income and net income take the pattern's value when it parses, and
   * otherwise fall back to the line scan.
   */
  lemma ResolvePatterned(text: string, m: Metric)
    requires m == Income || m == NetIncome
    ensures var flat := CollapseSpaces(text);
      var lines := SplitLines(text);
      var regex := RegexValue(flat, if m == Income then IncomeLabels else NetIncomeLabels);
      Lookup(Resolve(text), m) == if regex.Some? then regex else FirstHit(LabelledFor(LabelsOf(lines), m), ScanFrom(lines), |lines|)
  {
    var lines := SplitLines(text);
    var found := RegexPass(CollapseSpaces(text));
    RegexPassValues(CollapseSpaces(text));
    CombineLookup(found, LabelsOf(lines), ScanFrom(lines), |lines|, m);
  }

  // ---------------------------------------------------------------------
  // The derived result.

  /** The entries of the result dictionary. */
  datatype Field = Reported(metric: Metric) | TotalExpenses | Margin

  /** The key each entry has in the result. */
  function FieldName(f: Field): string {
    match f
    case Reported(Income) => "income"
    case Reported(Cogs) => "cogs"
    case Reported(Expenses) => "expenses"
    case Reported(OtherExpenses) => "other_expenses"
    case Reported(NetIncome) => "net_income"
    case TotalExpenses => "total_expenses"
    case Margin => "margin"
  }

  const FieldNames: set<string> :=
    {"income", "cogs", "expenses", "other_expenses", "net_income", "total_expenses", "margin"}

  /** `metrics.get(key) or 0.0`. */
  function OrZero(metrics: map<Metric, real>, m: Metric): real {
    if m in metrics then metrics[m] else 0.0
  }

  /** `cogs + expenses + other_expenses`, each missing one counted as zero. */
  function Costs(metrics: map<Metric, real>): real {
    OrZero(metrics, Cogs) + OrZero(metrics, Expenses) + OrZero(metrics, OtherExpenses)
  }

  /**
   * Which entries the result has and their values: income and net income
   * whenever found (zero included), each cost only when non-zero, total
   * expenses only when non-zero, and the margin when income is non-zero and
   * net income was found.
   */
  function Emitted(metrics: map<Metric, real>, f: Field): Option<real> {
    match f
    case Reported(Income) => Lookup(metrics, Income)
    case Reported(NetIncome) => Lookup(metrics, NetIncome)
    case Reported(m) => if OrZero(metrics, m) != 0.0 then Some(OrZero(metrics, m)) else None
    case TotalExpenses => if Costs(metrics) != 0.0 then Some(Costs(metrics)) else None
    case Margin =>
      if Income in metrics && metrics[Income] != 0.0 && NetIncome in metrics
      then Some(metrics[NetIncome] / metrics[Income] * 100.0)
      else None
  }

  /** The computation of the derived metrics and the result dictionary. */
  method Derive(metrics: map<Metric, real>) returns (result: map<string, real>)
    ensures forall f :: Lookup(result, FieldName(f)) == Emitted(metrics, f)
    ensures result.Keys <= FieldNames
  {
    var income := Lookup(metrics, Income);
    var cogs := OrZero(metrics, Cogs);
    var expenses := OrZero(metrics, Expenses);
    var otherExpenses := OrZero(metrics, OtherExpenses);
    var netIncome := Lookup(metrics, NetIncome);
    var totalExpenses := cogs + expenses + otherExpenses;
    var margin: Option<real> := None;
    if income.Some? && income.value != 0.0 && netIncome.Some? {
      margin := Some(netIncome.value / income.value * 100.0);
    }
    result := map[];
    if income.Some? {
      result := result["income" := income.value];
    }
    if cogs != 0.0 {
      result := result["cogs" := cogs];
    }
    if expenses != 0.0 {
      result := result["expenses" := expenses];
    }
    if otherExpenses != 0.0 {
      result := result["other_expenses" := otherExpenses];
    }
    if netIncome.Some? {
      result := result["net_income" := netIncome.value];
    }
    if totalExpenses != 0.0 {
      result := result["total_expenses" := totalExpenses];
    }
    if margin.Some? {
      result := result["margin" := margin.value];
    }
  }

  /** `extract_metrics_from_text`. */
  method ExtractMetricsFromText(text: string) returns (result: map<string, real>)
    ensures forall f :: Lookup(result, FieldName(f)) == Emitted(Resolve(text), f)
    ensures result.Keys <= FieldNames
  {
    var flat := CollapseSpaces(text);
    var metrics := ApplyPatterns(flat);
    if !(AllMetrics <= metrics.Keys) {
      var lines := SplitLines(text);
      metrics := ScanLabels(lines, metrics);
    }
    result := Derive(metrics);
  }

  // ---------------------------------------------------------------------
  // What the result promises.

  /** The margin is net income as a percentage of a non-zero income, both of which the result reports. */
  lemma MarginMeaning(metrics: map<Metric, real>, g: real)
    requires Emitted(metrics, Margin) == Some(g)
    ensures Emitted(metrics, Reported(Income)).Some? && Emitted(metrics, Reported(NetIncome)).Some?
    ensures var income := Emitted(metrics, Reported(Income)).value;
      income != 0.0 && g * income == Emitted(metrics, Reported(NetIncome)).value * 100.0
  {
  }

  /** The total is the sum of the cost entries the result reports, a missing one counting as zero. */
  lemma TotalMeaning(metrics: map<Metric, real>, t: real)
    requires Emitted(metrics, TotalExpenses) == Some(t)
    ensures t != 0.0
    ensures t == Reported0(metrics, Cogs) + Reported0(metrics, Expenses) + Reported0(metrics, OtherExpenses)
  {
  }

  /** A reported entry, zero when the result leaves it out. */
  function Reported0(metrics: map<Metric, real>, m: Metric): real {
    match Emitted(metrics, Reported(m))
    case Some(v) => v
    case None => 0.0
  }

  /**
   * A found zero is reported for income and net income but not for the
   * costs, and a zero income gives no margin.
   */
  lemma ZeroPolicy(metrics: map<Metric, real>, m: Metric)
    requires m in metrics && metrics[m] == 0.0
    ensures m == Income || m == NetIncome ==> Emitted(metrics, Reported(m)) == Some(0.0)
    ensures m == Cogs || m == Expenses || m == OtherExpenses ==> Emitted(metrics, Reported(m)) == None
    ensures m == Income ==> Emitted(metrics, Margin) == None
  {
  }

  /** Different entries have different keys in the result. */
  lemma FieldNamesDistinct(f: Field, g: Field)
    ensures FieldName(f) == FieldName(g) <==> f == g
  {
  }
}
