/** Two algorithms of tools/telemetry_benchmark.py: `_figures`, the canonical form under which a raw
    and a rolled-up summary are compared, and the batched seeding of ledger segments. */
module TelemetryFigures {
  import opened Ordering

  datatype Json =
    | Atom(value: string)
    | List(items: seq<Json>)
    | Dict(fields: map<string, Json>)

  /** Ordering by the canonical JSON text of a value. */
  function ByKey(key: Json -> string): (Json, Json) -> bool {
    (x, y) => StringLe(key(x), key(y))
  }

  function Figures(summary: Json, key: Json -> string): Json {
    match summary
    case Dict(fields) => Dict(map k | k in fields && k != "coverage" :: Figures(fields[k], key))
    case List(items) =>
      List(Sort(seq(|items|, i requires 0 <= i < |items| => Figures(items[i], key)), ByKey(key)))
    case Atom(_) => summary
  }

  /** Equal but for the order of lists and for `coverage` entries, at any depth. */
  ghost predicate SameFigures(a: Json, b: Json) {
    match a
    case Atom(_) => a == b
    case List(items) =>
      && b.List? && |b.items| == |items|
      && exists p: seq<nat> :: IsPermutation(p, |items|)
                                && forall i | 0 <= i < |items| :: SameFigures(items[i], b.items[p[i]])
    case Dict(fields) =>
      && b.Dict? && (forall k | k != "coverage" :: k in fields <==> k in b.fields)
      && forall k | k in fields && k in b.fields && k != "coverage" :: SameFigures(fields[k], b.fields[k])
  }

  ghost predicate Injective(key: Json -> string) {
    forall x, y | key(x) == key(y) :: x == y
  }

  lemma {:induction false} ByKeyIsPreorder(key: Json -> string)
    ensures TotalPreorder(ByKey(key))
  {
    StringLeIsPreorder();
  }

  lemma {:induction false} NoKeyTies(key: Json -> string, s: multiset<Json>)
    requires Injective(key)
    ensures NoTies(s, ByKey(key))
  {
    forall x, y | x in s && y in s && ByKey(key)(x, y) && ByKey(key)(y, x)
      ensures x == y
    {
      StringLeIsAntisymmetric(key(x), key(y));
    }
  }

  function AllFigures(items: seq<Json>, key: Json -> string): seq<Json> {
    seq(|items|, i requires 0 <= i < |items| => Figures(items[i], key))
  }

  /** What the figures of a summary hold: of a dictionary every field but `coverage`, of a list every item's figures,
      in ascending order of their texts. */
  lemma {:induction false} FiguresHold(summary: Json, key: Json -> string)
    ensures match (summary, Figures(summary, key))
      case (Dict(fields), Dict(kept)) =>
        kept.Keys == fields.Keys - {"coverage"} && forall k | k in kept :: kept[k] == Figures(fields[k], key)
      case (List(items), List(sorted)) =>
        && (forall i, j | 0 <= i < j < |sorted| :: StringLe(key(sorted[i]), key(sorted[j])))
        && exists p: seq<nat> :: IsPermutation(p, |items|) && |sorted| == |items|
                                 && forall i | 0 <= i < |items| :: Figures(items[i], key) == sorted[p[i]]
      case (Atom(_), figures) => figures == summary
      case _ => false
  {
    match summary
    case List(items) =>
      var x := AllFigures(items, key);
      var sorted := Sort(x, ByKey(key));
      ByKeyIsPreorder(key);
      SortSorts(x, ByKey(key));
      var p := RearrangementExists(x, sorted);
      hide IsPermutation, Sort, StringLe;
      forall i | 0 <= i < |items|
        ensures Figures(items[i], key) == sorted[p[i]]
      {
        assert Figures(items[i], key) == x[i];
      }
      forall i, j | 0 <= i < j < |sorted|
        ensures StringLe(key(sorted[i]), key(sorted[j]))
      {
        assert ByKey(key)(sorted[i], sorted[j]);
      }
      assert Figures(summary, key) == List(sorted);
    case _ =>
  }

  lemma {:induction false} SameMeansEqualFigures(a: Json, b: Json, key: Json -> string)
    requires Injective(key) && SameFigures(a, b)
    ensures Figures(a, key) == Figures(b, key)
  {
    match a
    case Atom(_) =>
    case List(items) =>
      var p: seq<nat> :| IsPermutation(p, |items|)
                         && forall i | 0 <= i < |items| :: SameFigures(items[i], b.items[p[i]]);
      var x, y := AllFigures(items, key), AllFigures(b.items, key);
      forall i | 0 <= i < |items|
        ensures x[i] == y[p[i]]
      {
        SameMeansEqualFigures(items[i], b.items[p[i]], key);
      }
      RearrangementKeepsElements(x, y, p);
      ByKeyIsPreorder(key);
      NoKeyTies(key, multiset(x));
      SortForgetsOrder(x, y, ByKey(key));
    case Dict(fields) =>
      forall k | k in fields && k in b.fields && k != "coverage"
        ensures Figures(fields[k], key) == Figures(b.fields[k], key)
      {
        SameMeansEqualFigures(fields[k], b.fields[k], key);
      }
  }

  lemma {:induction false} EqualFiguresMeanSame(a: Json, b: Json, key: Json -> string)
    requires Figures(a, key) == Figures(b, key)
    ensures SameFigures(a, b)
  {
    match a
    case Atom(_) =>
    case List(items) =>
      var x, y := AllFigures(items, key), AllFigures(b.items, key);
      ByKeyIsPreorder(key);
      SortSorts(x, ByKey(key));
      SortSorts(y, ByKey(key));
      var p := RearrangementExists(x, y);
      forall i | 0 <= i < |items|
        ensures SameFigures(items[i], b.items[p[i]])
      {
        EqualFiguresMeanSame(items[i], b.items[p[i]], key);
      }
    case Dict(fields) =>
      var f, g := Figures(a, key).fields, Figures(b, key).fields;
      assert f.Keys == fields.Keys - {"coverage"};
      assert g.Keys == b.fields.Keys - {"coverage"};
      forall k | k != "coverage"
        ensures k in fields <==> k in b.fields
      {
        assert k in f <==> k in g;
      }
      forall k | k in fields && k in b.fields && k != "coverage"
        ensures SameFigures(fields[k], b.fields[k])
      {
        assert f[k] == g[k];
        EqualFiguresMeanSame(fields[k], b.fields[k], key);
      }
  }

  /** `_figures` is a canonical form: it is equal for two summaries exactly when they differ only in
      list order and coverage. */
  lemma {:induction false} FiguresAreCanonical(a: Json, b: Json, key: Json -> string)
    requires Injective(key)
    ensures Figures(a, key) == Figures(b, key) <==> SameFigures(a, b)
  {
    if Figures(a, key) == Figures(b, key) {
      EqualFiguresMeanSame(a, b, key);
    } else if SameFigures(a, b) {
      SameMeansEqualFigures(a, b, key);
    }
  }

  lemma {:induction false} FiguresAreIdempotent(a: Json, key: Json -> string)
    requires Injective(key)
    ensures Figures(Figures(a, key), key) == Figures(a, key)
  {
    match a
    case Atom(_) =>
    case List(items) =>
      var x := AllFigures(items, key);
      var sorted := Sort(x, ByKey(key));
      ByKeyIsPreorder(key);
      SortSorts(x, ByKey(key));
      forall i | 0 <= i < |sorted|
        ensures Figures(sorted[i], key) == sorted[i]
      {
        assert sorted[i] in multiset(x);
        var j :| 0 <= j < |x| && x[j] == sorted[i];
        FiguresAreIdempotent(items[j], key);
      }
      assert AllFigures(sorted, key) == sorted;
      NoKeyTies(key, multiset(sorted));
      SortOfSorted(sorted, ByKey(key));
    case Dict(fields) =>
      forall k | k in fields && k != "coverage"
        ensures Figures(Figures(fields[k], key), key) == Figures(fields[k], key)
      {
        FiguresAreIdempotent(fields[k], key);
      }
  }
}

/** `_seed_direct` and `_seed`: the same population of calls, written in batches. */
module TelemetrySeeding {

  const CALLS_PER_RUN: nat := 200
  const CALLS_PER_TURN: nat := 8

  /** The rows of a segment, by the call, run and turn they describe and what distinguishes them. */
  datatype ToolRow = ToolRow(call: nat, run: nat, turn: nat, backend: nat, tool: nat, success: bool)
  datatype RunRow = RunRow(run: nat, openedBy: nat)
  datatype TurnRow = TurnRow(turn: nat, run: nat, openedBy: nat)

  datatype Segment = Segment(tools: seq<ToolRow>, runs: seq<RunRow>, turns: seq<TurnRow>)

  const EMPTY_SEGMENT := Segment([], [], [])

  function ToolOf(index: nat): ToolRow {
    ToolRow(index, index / CALLS_PER_RUN, index / CALLS_PER_TURN, index % 3, index % 7, index % 11 != 0)
  }

  // ------------------------------------------------------------------ what each segment should hold

  /** The rows of the first `n` calls that belong to `period`, in call order. */
  ghost function ToolsOf(periodOf: nat -> string, period: string, n: nat): seq<ToolRow> {
    if n == 0 then []
    else ToolsOf(periodOf, period, n - 1) + if periodOf(n - 1) == period then [ToolOf(n - 1)] else []
  }

  /** The runs opened by a call of `period`. */
  ghost function RunsOf(periodOf: nat -> string, period: string, n: nat): seq<RunRow> {
    if n == 0 then []
    else RunsOf(periodOf, period, n - 1)
         + if (n - 1) % CALLS_PER_RUN == 0 && periodOf(n - 1) == period
           then [RunRow((n - 1) / CALLS_PER_RUN, n - 1)] else []
  }

  ghost function TurnsOf(periodOf: nat -> string, period: string, n: nat): seq<TurnRow> {
    if n == 0 then []
    else TurnsOf(periodOf, period, n - 1)
         + if (n - 1) % CALLS_PER_TURN == 0 && periodOf(n - 1) == period
           then [TurnRow((n - 1) / CALLS_PER_TURN, (n - 1) / CALLS_PER_RUN, n - 1)] else []
  }

  ghost function StampsOf(periodOf: nat -> string, period: string, n: nat): seq<nat> {
    if n == 0 then []
    else StampsOf(periodOf, period, n - 1) + if periodOf(n - 1) == period then [n - 1] else []
  }

  ghost function SegmentOf(periodOf: nat -> string, period: string, n: nat): Segment {
    Segment(ToolsOf(periodOf, period, n), RunsOf(periodOf, period, n), TurnsOf(periodOf, period, n))
  }

  /** The row of a call: runs are of 200 calls, turns of 8. */
  ghost predicate Describes(row: ToolRow, call: nat) {
    && row.call == call
    && 200 * row.run <= call < 200 * row.run + 200
    && 8 * row.turn <= call < 8 * row.turn + 8
    && row.backend == call % 3 && row.tool == call % 7 && (row.success <==> call % 11 != 0)
  }

  lemma {:induction false} ToolDescribesCall(call: nat)
    ensures Describes(ToolOf(call), call) && ToolOf(call).call == call
  {
  }

  /** Rows for the first `n` calls of a period, exactly one for each, in call order, and no others. */
  ghost predicate AreCallsOf(rows: seq<ToolRow>, periodOf: nat -> string, period: string, n: nat) {
    && (forall i: nat | i < n && periodOf(i) == period :: exists k | 0 <= k < |rows| :: rows[k].call == i)
    && (forall k | 0 <= k < |rows| ::
          rows[k].call < n && Describes(rows[k], rows[k].call) && periodOf(rows[k].call) == period)
    && (forall j, k | 0 <= j < k < |rows| :: rows[j].call < rows[k].call)
  }

  lemma {:induction false} OneMoreCall(rows: seq<ToolRow>, periodOf: nat -> string, period: string, n: nat,
                                       row: ToolRow)
    requires AreCallsOf(rows, periodOf, period, n) && Describes(row, n)
    ensures periodOf(n) == period ==> AreCallsOf(rows + [row], periodOf, period, n + 1)
    ensures periodOf(n) != period ==> AreCallsOf(rows, periodOf, period, n + 1)
  {
    assert row.call == n;
    hide Describes;
    var more := rows + [row];
    assert more[|rows|] == row && forall k | 0 <= k < |rows| :: more[k] == rows[k];
    forall i: nat | i < n + 1 && periodOf(i) == period
      ensures exists k | 0 <= k < |more| :: more[k].call == i
    {
      if i < n {
        var k :| 0 <= k < |rows| && rows[k].call == i;
        assert more[k].call == i;
      }
    }
  }

  /** Every call is in its own period's rows, exactly once, in call order; and nothing else is. */
  lemma {:induction false} ToolsOfIsThePeriodsCalls(periodOf: nat -> string, period: string, n: nat)
    ensures AreCallsOf(ToolsOf(periodOf, period, n), periodOf, period, n)
  {
    if n > 0 {
      hide AreCallsOf, ToolOf, Describes;
      ToolsOfIsThePeriodsCalls(periodOf, period, n - 1);
      ToolDescribesCall(n - 1);
      var rows := ToolsOf(periodOf, period, n - 1);
      OneMoreCall(rows, periodOf, period, n - 1, ToolOf(n - 1));
      assert rows + [] == rows;
    }
  }

  /** A call of the period, among the first `n`. */
  ghost predicate Falls(periodOf: nat -> string, period: string, n: nat, call: int) {
    0 <= call < n && periodOf(call) == period
  }

  lemma {:induction false} RunsAreOpened(periodOf: nat -> string, period: string, n: nat)
    ensures forall row | row in RunsOf(periodOf, period, n)
              :: Falls(periodOf, period, n, row.openedBy) && row.openedBy == 200 * row.run
    ensures forall i | Falls(periodOf, period, n, i) && i % 200 == 0
              :: RunRow(i / 200, i) in RunsOf(periodOf, period, n)
  {
    if n > 0 {
      RunsAreOpened(periodOf, period, n - 1);
      assert forall i :: Falls(periodOf, period, n, i)
                         <==> Falls(periodOf, period, n - 1, i) || (i == n - 1 && periodOf(n - 1) == period);
    }
  }

  /** The turn row of a call that opens one. */
  ghost predicate OpensTurn(row: TurnRow, call: int) {
    call >= 0 && call % 8 == 0 && row == TurnRow(call / 8, call / 200, call)
  }

  lemma {:induction false} NextTurn(periodOf: nat -> string, period: string, n: nat, row: TurnRow)
    ensures row in TurnsOf(periodOf, period, n + 1)
        <==> row in TurnsOf(periodOf, period, n) || (periodOf(n) == period && OpensTurn(row, n))
  {
  }

  lemma {:induction false} NoTurns(periodOf: nat -> string, period: string)
    ensures TurnsOf(periodOf, period, 0) == []
  {
  }

  /** The turn rows of a period are those of its calls. */
  lemma {:induction false} TurnsAreCalls(periodOf: nat -> string, period: string, n: nat, row: TurnRow)
    ensures row in TurnsOf(periodOf, period, n)
        <==> exists i | Falls(periodOf, period, n, i) :: OpensTurn(row, i)
  {
    hide TurnsOf, OpensTurn;
    if n == 0 {
      NoTurns(periodOf, period);
    } else {
      TurnsAreCalls(periodOf, period, n - 1, row);
      NextTurn(periodOf, period, n - 1, row);
      assert forall i :: Falls(periodOf, period, n, i)
                         <==> Falls(periodOf, period, n - 1, i) || (i == n - 1 && periodOf(n - 1) == period);
    }
  }

  lemma {:induction false} TurnOpenedBy(call: nat)
    ensures call % 8 == 0 ==> call == 8 * (call / 8)
    ensures 200 * (call / 200) <= call < 200 * (call / 200) + 200
  {
  }

  lemma {:induction false} TurnsAreOpened(periodOf: nat -> string, period: string, n: nat)
    ensures forall row | row in TurnsOf(periodOf, period, n)
              :: && Falls(periodOf, period, n, row.openedBy) && row.openedBy == 8 * row.turn
                 && 200 * row.run <= row.openedBy < 200 * row.run + 200
    ensures forall i | Falls(periodOf, period, n, i) && i % 8 == 0
              :: TurnRow(i / 8, i / 200, i) in TurnsOf(periodOf, period, n)
  {
    hide TurnsOf;
    forall row | row in TurnsOf(periodOf, period, n)
      ensures Falls(periodOf, period, n, row.openedBy) && row.openedBy == 8 * row.turn
      ensures 200 * row.run <= row.openedBy < 200 * row.run + 200
    {
      TurnsAreCalls(periodOf, period, n, row);
      TurnOpenedBy(row.openedBy);
    }
    forall i | Falls(periodOf, period, n, i) && i % 8 == 0
      ensures TurnRow(i / 8, i / 200, i) in TurnsOf(periodOf, period, n)
    {
      TurnsAreCalls(periodOf, period, n, TurnRow(i / 8, i / 200, i));
      assert OpensTurn(TurnRow(i / 8, i / 200, i), i);
    }
  }

  /** The tool row of a call is in a segment. */
  ghost predicate HoldsCall(s: Segment, call: int) {
    exists k | 0 <= k < |s.tools| :: s.tools[k].call == call
  }

  lemma {:induction false} CallsAreKept(periodOf: nat -> string, period: string, n: nat)
    ensures forall i | Falls(periodOf, period, n, i) :: HoldsCall(SegmentOf(periodOf, period, n), i)
  {
    ToolsOfIsThePeriodsCalls(periodOf, period, n);
  }

  /** A run or turn row sits in the segment of the call that opened it: every two-hundredth call opens a run, every
      eighth a turn. */
  lemma {:induction false} OpenersKeepCompany(periodOf: nat -> string, period: string, n: nat)
    ensures var s := SegmentOf(periodOf, period, n);
            && (forall k | 0 <= k < |s.runs| ::
                  && Falls(periodOf, period, n, s.runs[k].openedBy) && HoldsCall(s, s.runs[k].openedBy)
                  && s.runs[k].openedBy == 200 * s.runs[k].run)
            && (forall k | 0 <= k < |s.turns| ::
                  && Falls(periodOf, period, n, s.turns[k].openedBy) && HoldsCall(s, s.turns[k].openedBy)
                  && s.turns[k].openedBy == 8 * s.turns[k].turn)
            && (forall i | Falls(periodOf, period, n, i) && i % 200 == 0 :: RunRow(i / 200, i) in s.runs)
            && (forall i | Falls(periodOf, period, n, i) && i % 8 == 0 :: TurnRow(i / 8, i / 200, i) in s.turns)
  {
    hide Falls, ToolsOf, RunsOf, TurnsOf, HoldsCall;
    CallsAreKept(periodOf, period, n);
    RunsAreOpened(periodOf, period, n);
    TurnsAreOpened(periodOf, period, n);
    var s := SegmentOf(periodOf, period, n);
    assert forall k | 0 <= k < |s.runs| :: s.runs[k] in s.runs;
    assert forall k | 0 <= k < |s.turns| :: s.turns[k] in s.turns;
  }

  /** Turns never straddle runs: whatever segments their rows are in, a call's turn is a turn of the call's run. */
  lemma {:induction false} TurnsStayInTheirRuns(periodOf: nat -> string, period: string, other: string, n: nat,
                                                j: nat, k: nat)
    requires j < |SegmentOf(periodOf, period, n).tools| && k < |SegmentOf(periodOf, other, n).turns|
    requires SegmentOf(periodOf, period, n).tools[j].turn == SegmentOf(periodOf, other, n).turns[k].turn
    ensures SegmentOf(periodOf, period, n).tools[j].run == SegmentOf(periodOf, other, n).turns[k].run
  {
    hide ToolsOf, TurnsOf, Falls;
    ToolsOfIsThePeriodsCalls(periodOf, period, n);
    TurnsAreOpened(periodOf, other, n);
    var tool, turn := ToolsOf(periodOf, period, n)[j], TurnsOf(periodOf, other, n)[k];
    assert turn in TurnsOf(periodOf, other, n) && Describes(tool, tool.call);
    SameRun(tool.call, turn.openedBy, tool.turn, tool.run, turn.run);
  }

  lemma {:induction false} SameRun(call: nat, opener: nat, turn: nat, run: nat, run': nat)
    requires opener == 8 * turn && 8 * turn <= call < 8 * turn + 8
    requires 200 * run <= call < 200 * run + 200 && 200 * run' <= opener < 200 * run' + 200
    ensures run == run'
  {
    assert 25 * run' <= turn < 25 * run' + 25;
  }

  lemma {:induction false} EvidenceCountsTools(periodOf: nat -> string, period: string, n: nat)
    ensures |StampsOf(periodOf, period, n)| == |ToolsOf(periodOf, period, n)|
  {
    if n > 0 {
      EvidenceCountsTools(periodOf, period, n - 1);
    }
  }

  // ------------------------------------------------------------------ INSERT OR IGNORE

  /** Runs and turns are inserted under their primary key, and a row whose key is taken is ignored. */
  function InsertRuns(held: seq<RunRow>, rows: seq<RunRow>): seq<RunRow>
    decreases |rows|
  {
    if rows == [] then held
    else InsertRuns(if exists k | 0 <= k < |held| :: held[k].run == rows[0].run then held else held + [rows[0]],
                    rows[1..])
  }

  function InsertTurns(held: seq<TurnRow>, rows: seq<TurnRow>): seq<TurnRow>
    decreases |rows|
  {
    if rows == [] then held
    else InsertTurns(if exists k | 0 <= k < |held| :: held[k].turn == rows[0].turn then held else held + [rows[0]],
                     rows[1..])
  }

  ghost predicate DistinctRuns(rows: seq<RunRow>) {
    forall j, k | 0 <= j < k < |rows| :: rows[j].run != rows[k].run
  }

  ghost predicate DistinctTurns(rows: seq<TurnRow>) {
    forall j, k | 0 <= j < k < |rows| :: rows[j].turn != rows[k].turn
  }

  lemma {:induction false} DistinctRunsAreAllInserted(held: seq<RunRow>, rows: seq<RunRow>)
    requires DistinctRuns(held + rows)
    ensures InsertRuns(held, rows) == held + rows
    decreases |rows|
  {
    if rows == [] {
      assert held + rows == held;
    } else {
      assert (held + rows)[|held|] == rows[0];
      forall k | 0 <= k < |held|
        ensures held[k].run != rows[0].run
      {
        assert (held + rows)[k] == held[k];
      }
      assert (held + [rows[0]]) + rows[1..] == held + rows;
      DistinctRunsAreAllInserted(held + [rows[0]], rows[1..]);
    }
  }

  lemma {:induction false} DistinctTurnsAreAllInserted(held: seq<TurnRow>, rows: seq<TurnRow>)
    requires DistinctTurns(held + rows)
    ensures InsertTurns(held, rows) == held + rows
    decreases |rows|
  {
    if rows == [] {
      assert held + rows == held;
    } else {
      assert (held + rows)[|held|] == rows[0];
      forall k | 0 <= k < |held|
        ensures held[k].turn != rows[0].turn
      {
        assert (held + rows)[k] == held[k];
      }
      assert (held + [rows[0]]) + rows[1..] == held + rows;
      DistinctTurnsAreAllInserted(held + [rows[0]], rows[1..]);
    }
  }

  /** Each run and each turn is opened once, so nothing is ignored. */
  lemma {:induction false} OpenedOnce(periodOf: nat -> string, period: string, n: nat)
    ensures DistinctRuns(RunsOf(periodOf, period, n)) && DistinctTurns(TurnsOf(periodOf, period, n))
    ensures forall k | 0 <= k < |RunsOf(periodOf, period, n)| :: CALLS_PER_RUN * RunsOf(periodOf, period, n)[k].run < n
    ensures forall k | 0 <= k < |TurnsOf(periodOf, period, n)|
              :: CALLS_PER_TURN * TurnsOf(periodOf, period, n)[k].turn < n
  {
    if n > 0 {
      OpenedOnce(periodOf, period, n - 1);
    }
  }

  // ------------------------------------------------------------------ the ledger being seeded

  class Seeder {
    var segments: map<string, Segment>
    var stampsByPeriod: map<string, seq<nat>>
    var toolRows: seq<ToolRow>
    var runRows: seq<RunRow>
    var turnRows: seq<TurnRow>
    var hasPeriod: bool
    var currentPeriod: string

    constructor ()
      ensures forall periodOf :: Conserves(periodOf, 0)
      ensures toolRows == [] && runRows == [] && turnRows == []
    {
      segments, stampsByPeriod := map[], map[];
      toolRows, runRows, turnRows := [], [], [];
      hasPeriod, currentPeriod := false, "";
    }

    function Held(period: string): Segment
      reads this
    {
      if period in segments then segments[period] else EMPTY_SEGMENT
    }

    function Stamps(period: string): seq<nat>
      reads this
    {
      if period in stampsByPeriod then stampsByPeriod[period] else []
    }

    /** What is stored for `period`, followed by what is still pending for it. */
    ghost function Accounted(period: string): Segment
      reads this
    {
      var held := Held(period);
      if hasPeriod && period == currentPeriod then
        Segment(held.tools + toolRows, held.runs + runRows, held.turns + turnRows)
      else held
    }

    /** After `n` calls: every row is stored in, or pending for, the segment of its own period. */
    ghost predicate Conserves(periodOf: nat -> string, n: nat)
      reads this
    {
      && (hasPeriod <==> n > 0)
      && (n > 0 ==> currentPeriod == periodOf(n - 1) && toolRows != [])
      && (n == 0 ==> toolRows == [] && runRows == [] && turnRows == [])
      && (forall period :: Accounted(period) == SegmentOf(periodOf, period, n))
      && (forall period :: Stamps(period) == StampsOf(periodOf, period, n))
    }

    method Flush(period: string)
      modifies this
      ensures segments == old(segments)[period := Segment(old(Held(period)).tools + old(toolRows),
                                                          InsertRuns(old(Held(period)).runs, old(runRows)),
                                                          InsertTurns(old(Held(period)).turns, old(turnRows)))]
      ensures toolRows == [] && runRows == [] && turnRows == []
      ensures hasPeriod == old(hasPeriod) && currentPeriod == old(currentPeriod)
      ensures stampsByPeriod == old(stampsByPeriod)
    {
      var held := Held(period);
      var runs, turns := held.runs, held.turns;
      if runRows != [] {
        runs := InsertRuns(runs, runRows);
      }
      if turnRows != [] {
        turns := InsertTurns(turns, turnRows);
      }
      segments := segments[period := Segment(held.tools + toolRows, runs, turns)];
      toolRows, runRows, turnRows := [], [], [];
    }

    /** Flushing the current period moves its pending rows into its segment and loses none. */
    method FlushCurrent(ghost periodOf: nat -> string, ghost n: nat)
      requires Conserves(periodOf, n) && n > 0
      modifies this
      ensures toolRows == [] && runRows == [] && turnRows == []
      ensures hasPeriod && currentPeriod == old(currentPeriod) && stampsByPeriod == old(stampsByPeriod)
      ensures forall period :: Held(period) == SegmentOf(periodOf, period, n)
    {
      ghost var before := Held(currentPeriod);
      assert Accounted(currentPeriod) == SegmentOf(periodOf, currentPeriod, n);
      OpenedOnce(periodOf, currentPeriod, n);
      DistinctRunsAreAllInserted(before.runs, runRows);
      DistinctTurnsAreAllInserted(before.turns, turnRows);
      ghost var others := segments;
      assert forall period :: period != currentPeriod ==> Held(period) == Accounted(period);
      Flush(currentPeriod);
    }

    /** Everything but the rows of call `n`, which belongs to the current period. */
    ghost predicate ReadyFor(periodOf: nat -> string, n: nat)
      reads this
    {
      && hasPeriod && currentPeriod == periodOf(n)
      && (forall period :: Accounted(period) == SegmentOf(periodOf, period, n))
      && (forall period :: Stamps(period) == StampsOf(periodOf, period, n + 1))
    }

    /** The head of the loop: what is pending is flushed before rows of another period, or of a full
        batch, would join it, and the call is stamped. */
    method TurnTo(n: nat, period: string, batch: int, ghost periodOf: nat -> string)
      requires Conserves(periodOf, n) && period == periodOf(n)
      modifies this
      ensures ReadyFor(periodOf, n)
      ensures toolRows == [] || (period == old(currentPeriod) && |toolRows| < batch)
      ensures n > 0 && period == old(currentPeriod) && |old(toolRows)| < batch
          ==> segments == old(segments) && toolRows == old(toolRows)
    {
      hide SegmentOf, StampsOf;
      if hasPeriod && (period != currentPeriod || |toolRows| >= batch) {
        FlushCurrent(periodOf, n);
      } else {
        assert forall p :: Accounted(p) == SegmentOf(periodOf, p, n);
      }
      NothingAdded(Held(period));
      hasPeriod, currentPeriod := true, period;
      Stamp(n, period, periodOf);
    }

    /** The call is stamped. */
    method Stamp(n: nat, period: string, ghost periodOf: nat -> string)
      requires period == periodOf(n) && forall p :: Stamps(p) == StampsOf(periodOf, p, n)
      modifies this`stampsByPeriod
      ensures forall p :: Stamps(p) == StampsOf(periodOf, p, n + 1)
    {
      hide StampsOf;
      ghost var before := stampsByPeriod;
      assert forall p :: (if p in before then before[p] else []) == Stamps(p);
      stampsByPeriod := stampsByPeriod[period := Stamps(period) + [n]];
      forall p
        ensures Stamps(p) == StampsOf(periodOf, p, n + 1)
      {
        NextStamp(periodOf, p, n);
        assert (if p in before then before[p] else []) == StampsOf(periodOf, p, n);
      }
    }

    /** The rest of the loop: the rows of call `index`. */
    method Append(index: nat, ghost periodOf: nat -> string)
      requires ReadyFor(periodOf, index)
      modifies this
      ensures Conserves(periodOf, index + 1)
    {
      ghost var before := Accounted(currentPeriod);
      label start:
      var run, turn := index / CALLS_PER_RUN, index / CALLS_PER_TURN;
      toolRows := toolRows + [ToolRow(index, run, turn, index % 3, index % 7, index % 11 != 0)];
      if index % CALLS_PER_RUN == 0 {
        runRows := runRows + [RunRow(run, index)];
      }
      if index % CALLS_PER_TURN == 0 {
        turnRows := turnRows + [TurnRow(turn, run, index)];
      }
      assert Accounted(currentPeriod) == SegmentOf(periodOf, currentPeriod, index + 1) by {
        assert before == SegmentOf(periodOf, currentPeriod, index);
        var held := Held(currentPeriod);
        assert held.tools + toolRows == before.tools + [ToolOf(index)];
        assert index % CALLS_PER_RUN == 0 ==> held.runs + runRows == before.runs + [RunRow(run, index)];
        assert index % CALLS_PER_TURN == 0 ==> held.turns + turnRows == before.turns + [TurnRow(turn, run, index)];
      }
      forall period | period != currentPeriod
        ensures Accounted(period) == SegmentOf(periodOf, period, index + 1)
      {
        assert Accounted(period) == old@start(Accounted(period)) == SegmentOf(periodOf, period, index);
        OtherPeriodsKeep(periodOf, period, index);
      }
      forall period
        ensures Stamps(period) == StampsOf(periodOf, period, index + 1)
      {
        assert Stamps(period) == old@start(Stamps(period));
      }
    }

    method SeedDirect(calls: nat, batch: int, periodOf: nat -> string)
      requires Conserves(periodOf, 0)
      modifies this
      ensures toolRows == [] && runRows == [] && turnRows == []
      ensures forall period :: Held(period) == SegmentOf(periodOf, period, calls)
      ensures forall period :: Stamps(period) == StampsOf(periodOf, period, calls)
    {
      for index := 0 to calls
        invariant Conserves(periodOf, index)
      {
        TurnTo(index, periodOf(index), batch, periodOf);
        Append(index, periodOf);
      }
      if hasPeriod && toolRows != [] {
        FlushCurrent(periodOf, calls);
      } else {
        assert forall period :: Accounted(period) == SegmentOf(periodOf, period, calls);
      }
    }
  }

  lemma {:induction false} NothingAdded(s: Segment)
    ensures Segment(s.tools + [], s.runs + [], s.turns + []) == s
  {
  }

  lemma {:induction false} NextStamp(periodOf: nat -> string, period: string, n: nat)
    ensures StampsOf(periodOf, period, n + 1)
         == StampsOf(periodOf, period, n) + if periodOf(n) == period then [n] else []
  {
  }

  lemma {:induction false} OtherPeriodsKeep(periodOf: nat -> string, period: string, n: nat)
    requires periodOf(n) != period
    ensures SegmentOf(periodOf, period, n + 1) == SegmentOf(periodOf, period, n)
  {
  }

  // ------------------------------------------------------------------ seeding through the reducer

  /** A tool use or its result, by call. */
  datatype Event = Use(call: nat) | Outcome(call: nat)

  ghost function EventsOf(n: nat): seq<Event> {
    if n == 0 then [] else EventsOf(n - 1) + [Use(n - 1), Outcome(n - 1)]
  }

  ghost function Flatten(batches: seq<seq<Event>>): seq<Event> {
    if batches == [] then [] else Flatten(batches[..|batches| - 1]) + batches[|batches| - 1]
  }

  lemma {:induction false} FlattenAppend(batches: seq<seq<Event>>, batch: seq<Event>)
    ensures Flatten(batches + [batch]) == Flatten(batches) + batch
  {
    assert (batches + [batch])[..|batches|] == batches;
  }

  /** A batch is not empty, holds both events of each of its calls, and is the first to reach the
      batch size. */
  predicate Filled(items: seq<Event>, batch: int) {
    items != [] && |items| % 2 == 0 && |items| >= batch && (batch > 0 ==> |items| <= batch + 1)
  }

  /** The events in order: call by call, each one's use and then its result. */
  lemma {:induction false} EventsAre(n: nat)
    ensures |EventsOf(n)| == 2 * n
    ensures forall i | 0 <= i < n :: EventsOf(n)[2 * i] == Use(i) && EventsOf(n)[2 * i + 1] == Outcome(i)
  {
    if n > 0 {
      EventsAre(n - 1);
      assert forall k | 0 <= k < 2 * (n - 1) :: EventsOf(n)[k] == EventsOf(n - 1)[k];
    }
  }

  lemma {:induction false} NextCall(done: seq<Event>, items: seq<Event>, index: nat)
    requires done + items == EventsOf(index)
    ensures done + (items + [Use(index)] + [Outcome(index)]) == EventsOf(index + 1)
  {
    assert done + (items + [Use(index)] + [Outcome(index)]) == (done + items) + [Use(index), Outcome(index)];
  }

  lemma {:induction false} FullIsFilled(items: seq<Event>, batch: int)
    requires items != [] && |items| % 2 == 0 && (|items| == 2 || |items| - 2 < batch)
    ensures |items| >= batch ==> Filled(items, batch)
  {
  }

  /** `_seed`: the batches handed to `record_events`. Together they are every event once and in order; a
      call's use and result travel together; and only the last batch may fall short. */
  method Seed(calls: nat, batch: int) returns (batches: seq<seq<Event>>)
    ensures Flatten(batches) == EventsOf(calls)
    ensures forall k | 0 <= k < |batches| - 1 :: Filled(batches[k], batch)
    ensures batches != [] ==>
              var last := batches[|batches| - 1];
              last != [] && |last| % 2 == 0 && (Filled(last, batch) || |last| < batch)
  {
    batches := [];
    var items: seq<Event> := [];
    assert Flatten(batches) + items == EventsOf(0);
    hide Flatten, EventsOf, Filled;
    for index := 0 to calls
      invariant Flatten(batches) + items == EventsOf(index)
      invariant |items| % 2 == 0 && (items == [] || |items| < batch)
      invariant forall k | 0 <= k < |batches| :: Filled(batches[k], batch)
    {
      NextCall(Flatten(batches), items, index);
      items := items + [Use(index)] + [Outcome(index)];
      FullIsFilled(items, batch);
      if |items| >= batch {
        FlattenAppend(batches, items);
        batches := batches + [items];
        items := [];
      }
    }
    if items != [] {
      FlattenAppend(batches, items);
      batches := batches + [items];
    }
  }
}
