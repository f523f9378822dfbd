/** GitHub's rolling traffic window, and what a history of runs keeps of it
    (`collect_github_traffic` in tools/metrics_snapshot.py). */
module TrafficWindow {
  import opened Outcomes
  import opened MetricsStore

  const SOURCE := "github_traffic"

  /** A row of the API's answer; a row without a timestamp has no day. */
  datatype TrafficRow = TrafficRow(day: Option<int>, count: real, uniques: real)

  function RowObservations(kind: string, row: TrafficRow): seq<Observation> {
    match row.day
    case None => []
    case Some(day) => [Observation(Key(day, SOURCE, kind + ".count"), row.count),
                       Observation(Key(day, SOURCE, kind + ".uniques"), row.uniques)]
  }

  function KindObservations(kind: string, rows: seq<TrafficRow>): seq<Observation> {
    if rows == [] then []
    else KindObservations(kind, rows[..|rows| - 1]) + RowObservations(kind, rows[|rows| - 1])
  }

  function TrafficObservations(views: seq<TrafficRow>, clones: seq<TrafficRow>): seq<Observation> {
    KindObservations("views", views) + KindObservations("clones", clones)
  }

  /** Both measures of a dated row. */
  ghost predicate FromRow(o: Observation, rows: seq<TrafficRow>, count: string, uniques: string) {
    exists i, day | 0 <= i < |rows| && rows[i].day == Some(day) ::
      || o == Observation(Key(day, "github_traffic", count), rows[i].count)
      || o == Observation(Key(day, "github_traffic", uniques), rows[i].uniques)
  }

  lemma {:induction false} FromRowGrows(o: Observation, rows: seq<TrafficRow>, row: TrafficRow, count: string,
                                        uniques: string)
    ensures FromRow(o, rows + [row], count, uniques)
        <==> FromRow(o, rows, count, uniques) || FromRow(o, [row], count, uniques)
  {
    var all := rows + [row];
    assert all[|rows|] == row && [row][0] == row && forall i | 0 <= i < |rows| :: all[i] == rows[i];
  }

  lemma {:induction false} KindIsFromRows(kind: string, rows: seq<TrafficRow>, o: Observation)
    ensures o in KindObservations(kind, rows) <==> FromRow(o, rows, kind + ".count", kind + ".uniques")
  {
    if rows != [] {
      var init, last := rows[..|rows| - 1], rows[|rows| - 1];
      KindIsFromRows(kind, init, o);
      assert rows == init + [last];
      FromRowGrows(o, init, last, kind + ".count", kind + ".uniques");
      assert [last][0] == last;
      assert o in RowObservations(kind, last) <==> FromRow(o, [last], kind + ".count", kind + ".uniques");
    }
  }

  /** The observations are these four of every dated row, and no others. */
  lemma {:induction false} TrafficIsFromRows(views: seq<TrafficRow>, clones: seq<TrafficRow>, o: Observation)
    ensures o in TrafficObservations(views, clones)
        <==> FromRow(o, views, "views.count", "views.uniques") || FromRow(o, clones, "clones.count", "clones.uniques")
  {
    hide KindObservations, FromRow;
    KindIsFromRows("views", views, o);
    KindIsFromRows("clones", clones, o);
    assert "views" + ".count" == "views.count" && "views" + ".uniques" == "views.uniques";
    assert "clones" + ".count" == "clones.count" && "clones" + ".uniques" == "clones.uniques";
  }

  method CollectKind(kind: string, rows: seq<TrafficRow>) returns (observations: seq<Observation>)
    ensures observations == KindObservations(kind, rows)
  {
    observations := [];
    for i := 0 to |rows|
      invariant observations == KindObservations(kind, rows[..i])
    {
      assert rows[..i + 1][..i] == rows[..i];
      match rows[i].day
      case None =>
      case Some(day) =>
        observations := observations + [Observation(Key(day, SOURCE, kind + ".count"), rows[i].count),
                                        Observation(Key(day, SOURCE, kind + ".uniques"), rows[i].uniques)];
    }
    assert rows[..|rows|] == rows;
  }

  /** `collect_github_traffic`: refused when either answer is not an object. */
  method CollectTraffic(views: Option<seq<TrafficRow>>, clones: Option<seq<TrafficRow>>)
    returns (r: Result<seq<Observation>, string>)
    ensures r.Err? <==> views.None? || clones.None?
    ensures r.Ok? ==> r.value == TrafficObservations(views.value, clones.value)
  {
    hide KindObservations;
    var observations := [];
    var kinds := [("views", views), ("clones", clones)];
    for k := 0 to 2
      invariant k > 0 ==> views.Some?
      invariant k == 0 ==> observations == []
      invariant k == 1 ==> observations == KindObservations("views", views.value)
      invariant k == 2 ==> clones.Some? && observations == TrafficObservations(views.value, clones.value)
    {
      if kinds[k].1.None? {
        return Err(kinds[k].0);
      }
      var more := CollectKind(kinds[k].0, kinds[k].1.value);
      observations := observations + more;
    }
    return Ok(observations);
  }

  /** What a row says of its day; both are stored, under metrics of their own. */
  datatype Measure = Count | Uniques

  function Read(row: TrafficRow, measure: Measure): real {
    match measure
    case Count => row.count
    case Uniques => row.uniques
  }

  function Metric(kind: string, measure: Measure): string {
    match measure
    case Count => kind + ".count"
    case Uniques => kind + ".uniques"
  }

  datatype Kind = Views | Clones

  function Name(kind: Kind): string {
    match kind
    case Views => "views"
    case Clones => "clones"
  }

  /** A run: the API's two answers, on a day, written at a time. */
  datatype TrafficRun = TrafficRun(day: int, at: int, views: seq<TrafficRow>, clones: seq<TrafficRow>)

  function Rows(run: TrafficRun, kind: Kind): seq<TrafficRow> {
    match kind
    case Views => run.views
    case Clones => run.clones
  }

  /** The row under which the table keeps one measure of one kind for a day. */
  function TrafficKey(day: int, kind: Kind, measure: Measure): Key {
    Key(day, SOURCE, Metric(Name(kind), measure))
  }

  /** The last row that an answer holds for a day. */
  function RowOn(rows: seq<TrafficRow>, day: int): Option<TrafficRow> {
    if rows == [] then None
    else if rows[|rows| - 1].day == Some(day) then Some(rows[|rows| - 1])
    else RowOn(rows[..|rows| - 1], day)
  }

  function ValueOn(rows: seq<TrafficRow>, day: int, measure: Measure): Option<real> {
    match RowOn(rows, day)
    case Some(row) => Some(Read(row, measure))
    case None => None
  }

  lemma {:induction false} RowReports(kind: string, row: TrafficRow, day: int, measure: Measure)
    ensures LastValue(RowObservations(kind, row), Key(day, SOURCE, Metric(kind, measure)))
         == if row.day == Some(day) then Some(Read(row, measure)) else None
  {
    hide LastValue;
    var key := Key(day, SOURCE, Metric(kind, measure));
    assert |kind + ".count"| != |kind + ".uniques"|;
    match row.day
    case None => LastValueIsReported([], key);
    case Some(day') =>
      LastOfTwo(Observation(Key(day', SOURCE, kind + ".count"), row.count),
                Observation(Key(day', SOURCE, kind + ".uniques"), row.uniques), key);
  }

  lemma {:induction false} LastOfTwo(first: Observation, second: Observation, key: Key)
    ensures LastValue([first, second], key)
         == if second.key == key then Some(second.value) else if first.key == key then Some(first.value) else None
  {
    assert [first, second][..1] == [first];
    assert LastValue([first], key) == if first.key == key then Some(first.value) else LastValue([first][..0], key);
    assert [first][..0] == [];
  }

  lemma {:induction false} KindReports(kind: string, rows: seq<TrafficRow>, day: int, measure: Measure)
    ensures LastValue(KindObservations(kind, rows), Key(day, SOURCE, Metric(kind, measure)))
         == ValueOn(rows, day, measure)
  {
    hide LastValue, RowObservations, Metric;
    var key := Key(day, SOURCE, Metric(kind, measure));
    if rows != [] {
      var init := rows[..|rows| - 1];
      KindReports(kind, init, day, measure);
      RowReports(kind, rows[|rows| - 1], day, measure);
      LastValueOfConcat(KindObservations(kind, init), RowObservations(kind, rows[|rows| - 1]), key);
    } else {
      LastValueIsReported([], key);
    }
  }

  lemma {:induction false} KindReportsOwn(kind: string, rows: seq<TrafficRow>, key: Key)
    requires forall measure :: key.metric != Metric(kind, measure)
    ensures LastValue(KindObservations(kind, rows), key) == None
  {
    assert key.metric != Metric(kind, Count) && key.metric != Metric(kind, Uniques);
    KindMetrics(kind, rows);
    LastValueIsReported(KindObservations(kind, rows), key);
  }

  lemma {:induction false} KindMetrics(kind: string, rows: seq<TrafficRow>)
    ensures forall o | o in KindObservations(kind, rows)
              :: o.key.metric == Metric(kind, Count) || o.key.metric == Metric(kind, Uniques)
  {
    if rows != [] {
      KindMetrics(kind, rows[..|rows| - 1]);
    }
  }

  lemma {:induction false} MetricsOfKindsDiffer(m: Measure, n: Measure)
    ensures Metric("views", m) != Metric("clones", n)
  {
    assert |Metric("views", m)| == 11 || |Metric("views", m)| == 13;
    assert |Metric("clones", n)| == 12 || |Metric("clones", n)| == 14;
  }

  lemma {:induction false} TrafficReports(run: TrafficRun, kind: Kind, measure: Measure, day: int)
    ensures LastValue(TrafficObservations(run.views, run.clones), TrafficKey(day, kind, measure))
         == ValueOn(Rows(run, kind), day, measure)
  {
    hide LastValue, KindObservations, ValueOn, Metric;
    var key := TrafficKey(day, kind, measure);
    forall n
      ensures Metric("views", measure) != Metric("clones", n) && Metric("views", n) != Metric("clones", measure)
    {
      MetricsOfKindsDiffer(measure, n);
      MetricsOfKindsDiffer(n, measure);
    }
    KindReports(Name(kind), Rows(run, kind), day, measure);
    match kind {
      case Views => KindReportsOwn("clones", run.clones, key);
      case Clones => KindReportsOwn("views", run.views, key);
    }
    LastValueOfConcat(KindObservations("views", run.views), KindObservations("clones", run.clones), key);
  }

  // ------------------------------------------------------------------ a history of windows

  predicate InWindow(x: int, day: int, width: nat) {
    day - width < x <= day
  }

  /** The API's answers hold the days of the window that ends on the day of the run. */
  ghost predicate AnswersWindow(r: TrafficRun, width: nat) {
    forall kind, x :: RowOn(Rows(r, kind), x).Some? <==> InWindow(x, r.day, width)
  }

  function Attempts(runs: seq<TrafficRun>): (attempts: seq<Attempt>)
    ensures |attempts| == |runs|
  {
    if runs == [] then []
    else
      var last := runs[|runs| - 1];
      Attempts(runs[..|runs| - 1]) + [Attempt(SOURCE, last.at, Ok(TrafficObservations(last.views, last.clones)))]
  }

  function Days(runs: seq<TrafficRun>): (days: seq<int>)
    ensures |days| == |runs| && forall i | 0 <= i < |runs| :: days[i] == runs[i].day
  {
    seq(|runs|, i requires 0 <= i < |runs| => runs[i].day)
  }

  predicate Covered(days: seq<int>, width: nat, x: int) {
    exists i | 0 <= i < |days| :: InWindow(x, days[i], width)
  }

  /** The last run whose window holds a day. */
  function LastCovering(runs: seq<TrafficRun>, width: nat, x: int): Option<TrafficRun> {
    if runs == [] then None
    else if InWindow(x, runs[|runs| - 1].day, width) then Some(runs[|runs| - 1])
    else LastCovering(runs[..|runs| - 1], width, x)
  }

  lemma {:induction false} CoveredIff(runs: seq<TrafficRun>, width: nat, x: int)
    ensures LastCovering(runs, width, x).Some? <==> Covered(Days(runs), width, x)
  {
    if runs != [] {
      var init := runs[..|runs| - 1];
      CoveredIff(init, width, x);
      assert forall i | 0 <= i < |init| :: Days(runs)[i] == Days(init)[i];
      assert Days(runs)[|init|] == runs[|init|].day;
    }
  }

  /** A row holds what a run read of a day. */
  predicate ReadBy(row: Stored, run: TrafficRun, kind: Kind, measure: Measure, x: int) {
    ValueOn(Rows(run, kind), x, measure) == Some(row.value) && run.at == row.capturedAt
  }

  lemma {:induction false} LastRead(runs: seq<TrafficRun>, width: nat, kind: Kind, measure: Measure, x: int)
    requires forall r | r in runs :: AnswersWindow(r, width)
    ensures match LastRow(Attempts(runs), TrafficKey(x, kind, measure))
            case Some(row) =>
              && LastCovering(runs, width, x).Some?
              && ReadBy(row, LastCovering(runs, width, x).value, kind, measure, x)
            case None => LastCovering(runs, width, x).None?
  {
    hide TrafficObservations, LastValue, RowOn, TrafficKey;
    if runs != [] {
      var init, last := runs[..|runs| - 1], runs[|runs| - 1];
      LastRead(init, width, kind, measure, x);
      TrafficReports(last, kind, measure, x);
      assert Attempts(runs)[..|runs| - 1] == Attempts(init);
      assert last in runs;
      assert RowOn(Rows(last, kind), x).Some? <==> InWindow(x, last.day, width);
    }
  }

  lemma {:induction false} LastCoveringAnswers(runs: seq<TrafficRun>, width: nat, x: int)
    ensures LastCovering(runs, width, x).Some?
        ==> LastCovering(runs, width, x).value in runs && InWindow(x, LastCovering(runs, width, x).value.day, width)
  {
    if runs != [] {
      LastCoveringAnswers(runs[..|runs| - 1], width, x);
    }
  }

  /** After any history of runs, a day's traffic, of either kind and measure, is stored exactly when some run's window
      held the day, and it is what the last such run read. */
  lemma {:induction false} StoredDaysAreCovered(runs: seq<TrafficRun>, width: nat, kind: Kind, measure: Measure, x: int)
    requires forall r | r in runs :: AnswersWindow(r, width)
    ensures var table := AfterAttempts(map[], Attempts(runs));
      var key := TrafficKey(x, kind, measure);
      && (key in table <==> Covered(Days(runs), width, x))
      && (key in table ==> LastCovering(runs, width, x).Some?
                           && ReadBy(table[key], LastCovering(runs, width, x).value, kind, measure, x))
  {
    hide AfterAttempts, LastRow, Attempts, ValueOn, Covered, LastCovering, TrafficKey;
    HistoryHoldsLastRows(map[], Attempts(runs));
    LastRead(runs, width, kind, measure, x);
    CoveredIff(runs, width, x);
    LastCoveringAnswers(runs, width, x);
  }

  // ------------------------------------------------------------------ the days that are missed

  predicate Increasing(days: seq<int>) {
    forall i, j | 0 <= i < j < |days| :: days[i] < days[j]
  }

  function Beyond(gap: int, width: nat): nat {
    if gap > width then gap - width else 0
  }

  /** The days beyond the window, over all pairs of successive runs. */
  function DaysBeyond(days: seq<int>, width: nat): nat {
    if |days| < 2 then 0
    else DaysBeyond(days[..|days| - 1], width) + Beyond(days[|days| - 1] - days[|days| - 2], width)
  }

  /** The days after one day, up to another. */
  function Interval(after: int, last: int): (days: set<int>)
    ensures forall x :: x in days <==> after < x <= last
    ensures |days| == if last > after then last - after else 0
    decreases last - after
  {
    if last > after then Interval(after, last - 1) + {last} else {}
  }

  /** The days after the first run, up to the last, that no run saw. */
  function Missed(days: seq<int>, width: nat): set<int>
    requires days != []
  {
    set x | days[0] < x <= days[|days| - 1] && !Covered(days, width, x)
  }

  lemma {:induction false} MissedGrows(days: seq<int>, width: nat)
    requires Increasing(days) && |days| > 1
    ensures var n := |days| - 1;
      Missed(days, width) == Missed(days[..n], width) + Interval(days[n - 1], days[n] - width)
  {
    var n := |days| - 1;
    var init := days[..n];
    forall x
      ensures x in Missed(days, width) <==> x in Missed(init, width) + Interval(days[n - 1], days[n] - width)
    {
      assert forall i | 0 <= i < n :: init[i] == days[i];
      assert Covered(days, width, x) <==> Covered(init, width, x) || InWindow(x, days[n], width);
      assert InWindow(x, days[n], width) && x <= days[n - 1] ==> InWindow(x, init[n - 1], width);
      assert x > days[n - 1] ==> forall i | 0 <= i < n :: !InWindow(x, init[i], width);
    }
  }

  /** Over any increasing sequence of runs, the days missed number exactly the days by which each gap exceeds the
      window. */
  lemma {:induction false} MissedDaysAreTheExcess(days: seq<int>, width: nat)
    requires Increasing(days) && days != []
    ensures |Missed(days, width)| == DaysBeyond(days, width)
  {
    if |days| == 1 {
      assert Missed(days, width) == {};
    } else {
      hide Missed;
      var n := |days| - 1;
      MissedDaysAreTheExcess(days[..n], width);
      MissedGrows(days, width);
      MissedLieBefore(days[..n], width, days[n - 1], days[n] - width);
    }
  }

  lemma {:induction false} MissedLieBefore(days: seq<int>, width: nat, after: int, last: int)
    requires days != [] && after >= days[|days| - 1]
    ensures Missed(days, width) !! Interval(after, last)
  {
  }

  /** No two successive runs are further apart than the window is wide. */
  ghost predicate NoGapBeyond(days: seq<int>, width: nat) {
    forall i, j | 0 <= i < j < |days| && j == i + 1 :: days[j] - days[i] <= width
  }

  /** Nothing is missed exactly when no gap is wider than the window. */
  lemma {:induction false} NothingIsMissedIff(days: seq<int>, width: nat)
    requires Increasing(days) && days != []
    ensures Missed(days, width) == {} <==> NoGapBeyond(days, width)
  {
    MissedDaysAreTheExcess(days, width);
    NoExcessIff(days, width);
    assert Missed(days, width) == {} <==> |Missed(days, width)| == 0;
  }

  lemma {:induction false} NoExcessIff(days: seq<int>, width: nat)
    ensures DaysBeyond(days, width) == 0 <==> NoGapBeyond(days, width)
  {
    if |days| >= 2 {
      var n := |days| - 1;
      NoExcessIff(days[..n], width);
      assert forall i | 0 <= i < n :: days[..n][i] == days[i];
    }
  }

  /** Of either kind and measure, the rows missing from the table after a history of runs are exactly as many. */
  lemma {:induction false} MissingRowsAreTheExcess(runs: seq<TrafficRun>, width: nat, kind: Kind, measure: Measure)
    requires runs != [] && Increasing(Days(runs)) && forall r | r in runs :: AnswersWindow(r, width)
    ensures var table := AfterAttempts(map[], Attempts(runs));
      |set x | runs[0].day < x <= runs[|runs| - 1].day && TrafficKey(x, kind, measure) !in table|
      == DaysBeyond(Days(runs), width)
  {
    hide AfterAttempts, Attempts, AnswersWindow, Covered, DaysBeyond, TrafficKey;
    var table := AfterAttempts(map[], Attempts(runs));
    forall x
      ensures TrafficKey(x, kind, measure) in table <==> Covered(Days(runs), width, x)
    {
      StoredDaysAreCovered(runs, width, kind, measure, x);
    }
    MissedDaysAreTheExcess(Days(runs), width);
    assert Missed(Days(runs), width)
        == set x | runs[0].day < x <= runs[|runs| - 1].day && TrafficKey(x, kind, measure) !in table;
  }

  /** A day's count is read after the day is over exactly when a later run comes before the window has passed it. */
  lemma {:induction false} PartialDayIsCorrectedIff(runs: seq<TrafficRun>, width: nat, x: int)
    requires Increasing(Days(runs)) && LastCovering(runs, width, x).Some?
    ensures LastCovering(runs, width, x).value.day > x
        <==> exists i | 0 <= i < |runs| :: x < runs[i].day < x + width
  {
    var init, last := runs[..|runs| - 1], runs[|runs| - 1];
    if InWindow(x, last.day, width) {
      assert forall i | 0 <= i < |runs| :: Days(runs)[i] == runs[i].day;
      assert runs[|runs| - 1] == last;
    } else {
      assert forall i | 0 <= i < |init| :: Days(init)[i] == Days(runs)[i];
      PartialDayIsCorrectedIff(init, width, x);
      assert forall i | 0 <= i < |init| :: runs[i] == init[i];
      assert x < last.day < x + width ==> InWindow(x, last.day, width);
    }
  }
}
