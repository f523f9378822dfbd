/** Version-check requests per day, and what the table holds of them (`collect_cloudflare` in
    tools/metrics_snapshot.py). */
module CloudflareHits {
  import opened Outcomes
  import opened Text
  import opened MetricsStore

  const SOURCE := "cloudflare"
  const SECONDS_PER_DAY := 86400
  const STATUS_PREFIX := "version_check.status_"

  /** A row of the query's answer: a bucket's first second, a response status, and how often it was given. */
  datatype Row = Row(dayEpoch: int, status: real, hits: real)

  function DayOf(row: Row): int {
    row.dayEpoch / SECONDS_PER_DAY
  }

  /** `int` of a float rounds towards zero. */
  function CodeOf(row: Row): int {
    if row.status >= 0.0 then row.status.Floor else -((-row.status).Floor)
  }

  function Signed(n: int): string {
    if n < 0 then "-" + Decimal(-n) else Decimal(n)
  }

  function StatusKey(day: int, code: int): Key {
    Key(day, SOURCE, STATUS_PREFIX + Signed(code))
  }

  function TotalKey(day: int): Key {
    Key(day, SOURCE, "version_check.hits")
  }

  function KeyOf(row: Row): Key {
    StatusKey(DayOf(row), CodeOf(row))
  }

  function StatusObservations(rows: seq<Row>): seq<Observation> {
    if rows == [] then []
    else StatusObservations(rows[..|rows| - 1]) + [Observation(KeyOf(rows[|rows| - 1]), rows[|rows| - 1].hits)]
  }

  /** The hits of a day, over all its statuses. */
  function TotalHits(rows: seq<Row>, day: int): real {
    if rows == [] then 0.0
    else TotalHits(rows[..|rows| - 1], day) + (if DayOf(rows[|rows| - 1]) == day then rows[|rows| - 1].hits else 0.0)
  }

  /** The days of the rows, in the order they first occur. */
  function DaysOf(rows: seq<Row>): (days: seq<int>)
    ensures forall i, j | 0 <= i < j < |days| :: days[i] != days[j]
  {
    if rows == [] then []
    else
      var before := DaysOf(rows[..|rows| - 1]);
      if DayOf(rows[|rows| - 1]) in before then before else before + [DayOf(rows[|rows| - 1])]
  }

  function TotalObservations(days: seq<int>, rows: seq<Row>): (observations: seq<Observation>)
    ensures |observations| == |days|
    ensures forall i | 0 <= i < |days| :: observations[i] == Observation(TotalKey(days[i]), TotalHits(rows, days[i]))
  {
    seq(|days|, i requires 0 <= i < |days| => Observation(TotalKey(days[i]), TotalHits(rows, days[i])))
  }

  function CloudflareObservations(rows: seq<Row>): seq<Observation> {
    StatusObservations(rows) + TotalObservations(DaysOf(rows), rows)
  }

  lemma {:induction false} DaysOfRows(rows: seq<Row>, day: int)
    ensures day in DaysOf(rows) <==> exists i :: 0 <= i < |rows| && DayOf(rows[i]) == day
    ensures day !in DaysOf(rows) ==> TotalHits(rows, day) == 0.0
  {
    if rows != [] {
      var init, last := rows[..|rows| - 1], rows[|rows| - 1];
      DaysOfRows(init, day);
      assert forall i | 0 <= i < |init| :: rows[i] == init[i];
      assert rows[|init|] == last;
    }
  }

  lemma {:induction false} DaysInFirstUse(rows: seq<Row>, i: nat, j: nat)
    requires i < j < |DaysOf(rows)|
    ensures exists k | 0 <= k < |rows| ::
              DayOf(rows[k]) == DaysOf(rows)[i] && DaysOf(rows)[j] !in DaysOf(rows[..k])
  {
    hide DayOf;
    var init := rows[..|rows| - 1];
    if j < |DaysOf(init)| {
      DaysInFirstUse(init, i, j);
      var k :| 0 <= k < |init| && DayOf(init[k]) == DaysOf(init)[i] && DaysOf(init)[j] !in DaysOf(init[..k]);
      assert rows[..k] == init[..k];
    } else {
      DaysOfRows(init, DaysOf(rows)[i]);
      var k :| 0 <= k < |init| && DayOf(init[k]) == DaysOf(rows)[i];
      DaysOfRows(init, DaysOf(rows)[j]);
      DaysOfRows(rows[..k], DaysOf(rows)[j]);
      assert forall m | 0 <= m < k :: rows[..k][m] == init[m];
    }
  }

  /** A day, counted from midnight to midnight, and a status without its fraction, under the metric they are kept. */
  ghost predicate IsStatusOf(o: Observation, row: Row, day: int, code: int) {
    && day * 86400 <= row.dayEpoch < day * 86400 + 86400
    && (if code > 0 then code as real <= row.status < (code + 1) as real
        else if code < 0 then (code - 1) as real < row.status <= code as real
        else -1.0 < row.status < 1.0)
    && o.key.day == day && o.key.source == "cloudflare" && o.value == row.hits
    && o.key.metric == "version_check.status_" + (if code < 0 then "-" + Decimal(-code) else Decimal(code))
  }

  lemma {:induction false} StatusIs(row: Row, o: Observation, day: int, code: int)
    ensures IsStatusOf(o, row, day, code)
        <==> o == Observation(KeyOf(row), row.hits) && day == DayOf(row) && code == CodeOf(row)
  {
    hide Decimal;
    assert day * 86400 <= row.dayEpoch < day * 86400 + 86400 <==> day == DayOf(row);
    assert (if code > 0 then code as real <= row.status < (code + 1) as real
            else if code < 0 then (code - 1) as real < row.status <= code as real
            else -1.0 < row.status < 1.0) <==> code == CodeOf(row);
  }

  lemma {:induction false} StatusesAreRows(rows: seq<Row>, o: Observation)
    ensures o in StatusObservations(rows)
        <==> exists i, day, code | 0 <= i < |rows| :: IsStatusOf(o, rows[i], day, code)
  {
    hide IsStatusOf, KeyOf, DayOf, CodeOf;
    if rows != [] {
      var init, last := rows[..|rows| - 1], rows[|rows| - 1];
      StatusesAreRows(init, o);
      forall day, code
        ensures IsStatusOf(o, last, day, code)
            <==> o == Observation(KeyOf(last), last.hits) && day == DayOf(last) && code == CodeOf(last)
      {
        StatusIs(last, o, day, code);
      }
      assert forall i | 0 <= i < |init| :: rows[i] == init[i];
      if o in StatusObservations(init) {
        var i, day, code :| 0 <= i < |init| && IsStatusOf(o, init[i], day, code);
        assert IsStatusOf(o, rows[i], day, code);
      }
      if o == Observation(KeyOf(last), last.hits) {
        assert IsStatusOf(o, rows[|init|], DayOf(last), CodeOf(last));
      }
    }
  }

  /** What is collected: each row's hits under its day and status, and each day's total. */
  lemma {:induction false} CollectedIff(rows: seq<Row>, o: Observation)
    ensures o in CloudflareObservations(rows)
        <==> || (exists i, day, code | 0 <= i < |rows| :: IsStatusOf(o, rows[i], day, code))
             || (exists day | day in DaysOf(rows) ::
                   o == Observation(Key(day, "cloudflare", "version_check.hits"), TotalHits(rows, day)))
  {
    hide IsStatusOf, StatusObservations, DaysOf, TotalHits;
    StatusesAreRows(rows, o);
    var totals := TotalObservations(DaysOf(rows), rows);
    if o in totals {
      var i :| 0 <= i < |totals| && totals[i] == o;
      assert DaysOf(rows)[i] in DaysOf(rows);
    }
    if day :| day in DaysOf(rows)
              && o == Observation(Key(day, "cloudflare", "version_check.hits"), TotalHits(rows, day)) {
      var i :| 0 <= i < |DaysOf(rows)| && DaysOf(rows)[i] == day;
      assert totals[i] == o;
    }
  }

  /** The days and the totals of the rows seen so far. */
  ghost predicate Tallied(days: seq<int>, totals: map<int, real>, rows: seq<Row>) {
    && days == DaysOf(rows)
    && (forall d :: d in totals <==> d in days)
    && forall d | d in totals :: totals[d] == TotalHits(rows, d)
  }

  lemma {:induction false} NextTally(days: seq<int>, totals: map<int, real>, rows: seq<Row>, row: Row)
    requires Tallied(days, totals, rows)
    ensures var day := DayOf(row);
      Tallied(if day in totals then days else days + [day],
              totals[day := (if day in totals then totals[day] else 0.0) + row.hits], rows + [row])
  {
    hide TotalHits, DaysOf, DayOf;
    assert (rows + [row])[..|rows|] == rows;
    TotalsGrow(rows + [row]);
    DaysOfRows(rows, DayOf(row));
  }

  /** The first loop: the status rows, and the totals as a dictionary with its keys in insertion order. */
  method Accumulate(rows: seq<Row>) returns (observations: seq<Observation>, days: seq<int>, totals: map<int, real>)
    ensures observations == StatusObservations(rows)
    ensures days == DaysOf(rows)
    ensures forall d :: d in totals <==> d in days
    ensures forall d | d in totals :: totals[d] == TotalHits(rows, d)
  {
    observations, days, totals := [], [], map[];
    assert StatusObservations([]) == [] && Tallied(days, totals, []);
    for i := 0 to |rows|
      invariant observations == StatusObservations(rows[..i])
      invariant Tallied(days, totals, rows[..i])
    {
      hide *;
      var row := rows[i];
      var day := DayOf(row);
      assert rows[..i + 1] == rows[..i] + [row];
      StatusObservationsGrow(rows[..i], row);
      NextTally(days, totals, rows[..i], row);
      if day !in totals {
        days := days + [day];
      }
      totals := totals[day := (if day in totals then totals[day] else 0.0) + row.hits];
      observations := observations + [Observation(KeyOf(row), row.hits)];
    }
    assert rows[..|rows|] == rows;
  }

  lemma {:induction false} TotalsGrow(rows: seq<Row>)
    requires rows != []
    ensures var init, last := rows[..|rows| - 1], rows[|rows| - 1];
      && DaysOf(rows) == (if DayOf(last) in DaysOf(init) then DaysOf(init) else DaysOf(init) + [DayOf(last)])
      && forall d :: TotalHits(rows, d) == TotalHits(init, d) + (if DayOf(last) == d then last.hits else 0.0)
  {
  }

  /** `collect_cloudflare`: refused when the answer holds no data. */
  method CollectCloudflare(answer: Option<seq<Row>>) returns (r: Result<seq<Observation>, string>)
    ensures r.Err? <==> answer.None?
    ensures r.Ok? ==> r.value == CloudflareObservations(answer.value)
  {
    if answer.None? {
      return Err("unexpected Analytics Engine response");
    }
    hide StatusObservations, TotalHits, DaysOf;
    var rows := answer.value;
    var before, days, totals := Accumulate(rows);
    var observations := before;
    for i := 0 to |days|
      invariant observations == before + TotalObservations(days, rows)[..i]
    {
      observations := observations + [Observation(TotalKey(days[i]), totals[days[i]])];
    }
    assert TotalObservations(days, rows)[..|days|] == TotalObservations(days, rows);
    return Ok(observations);
  }

  lemma {:induction false} StatusObservationsGrow(rows: seq<Row>, row: Row)
    ensures StatusObservations(rows + [row]) == StatusObservations(rows) + [Observation(KeyOf(row), row.hits)]
  {
    assert (rows + [row])[..|rows|] == rows;
  }

  // ------------------------------------------------------------------ the keys of a day

  lemma {:induction false} SignedIsInjective(m: int, n: int)
    requires Signed(m) == Signed(n)
    ensures m == n
  {
    hide Decimal;
    if m < 0 && n < 0 {
      assert ("-" + Decimal(-m))[1..] == Decimal(-m) && ("-" + Decimal(-n))[1..] == Decimal(-n);
      DecimalIsInjective(-m, -n);
    } else if m >= 0 && n >= 0 {
      DecimalIsInjective(m, n);
    }
    SignFirst(m);
    SignFirst(n);
  }

  lemma {:induction false} SignFirst(n: int)
    ensures Signed(n) != [] && (Signed(n)[0] == '-' <==> n < 0)
  {
    hide Decimal;
  }

  /** Rows with different days or statuses have different keys. */
  lemma {:induction false} StatusKeysDiffer(day: int, code: int, other: int, another: int)
    ensures StatusKey(day, code) == StatusKey(other, another) <==> day == other && code == another
  {
    hide Signed;
    if StatusKey(day, code) == StatusKey(other, another) {
      assert (STATUS_PREFIX + Signed(code))[|STATUS_PREFIX|..] == Signed(code);
      assert (STATUS_PREFIX + Signed(another))[|STATUS_PREFIX|..] == Signed(another);
      SignedIsInjective(code, another);
    }
  }

  predicate IsStatusKey(key: Key, day: int) {
    key.day == day && key.source == SOURCE && STATUS_PREFIX <= key.metric
  }

  lemma {:induction false} KindsOfKeys(day: int, code: int, other: int)
    ensures IsStatusKey(StatusKey(day, code), other) <==> day == other
    ensures !IsStatusKey(TotalKey(day), other)
    ensures StatusKey(day, code) != TotalKey(other)
  {
    hide Signed;
    assert TotalKey(day).metric[14] == 'h' && STATUS_PREFIX[14] == 's';
    assert StatusKey(day, code).metric[14] == STATUS_PREFIX[14];
  }

  // ------------------------------------------------------------------ sums over stored rows

  ghost function Sum(keys: set<Key>, table: Table): real
    requires keys <= table.Keys
  {
    if keys == {} then 0.0 else
      var k :| k in keys;
      table[k].value + Sum(keys - {k}, table)
  }

  lemma {:induction false} SumPicks(keys: set<Key>, table: Table, k: Key)
    requires keys <= table.Keys && k in keys
    ensures Sum(keys, table) == table[k].value + Sum(keys - {k}, table)
    decreases |keys|
  {
    var first :| first in keys && Sum(keys, table) == table[first].value + Sum(keys - {first}, table);
    if first != k {
      SumPicks(keys - {first}, table, k);
      SumPicks(keys - {k}, table, first);
      assert keys - {first} - {k} == keys - {k} - {first};
    }
  }

  lemma {:induction false} SumAgrees(keys: set<Key>, table: Table, other: Table)
    requires keys <= table.Keys && keys <= other.Keys && forall k | k in keys :: table[k].value == other[k].value
    ensures Sum(keys, table) == Sum(keys, other)
    decreases |keys|
  {
    if keys != {} {
      var k :| k in keys;
      SumPicks(keys, table, k);
      SumPicks(keys, other, k);
      SumAgrees(keys - {k}, table, other);
    }
  }

  function StatusKeysOn(table: Table, day: int): set<Key> {
    set k | k in table && IsStatusKey(k, day)
  }

  /** The sum of a day's stored status rows. */
  ghost function StatusSum(table: Table, day: int): real {
    Sum(StatusKeysOn(table, day), table)
  }

  lemma {:induction false} SumAfterWrite(table: Table, key: Key, row: Stored, day: int)
    ensures StatusSum(table[key := row], day)
         == if !IsStatusKey(key, day) then StatusSum(table, day)
            else if key in table then StatusSum(table, day) - table[key].value + row.value
            else StatusSum(table, day) + row.value
  {
    hide IsStatusKey;
    var after := table[key := row];
    var keys, keysAfter := StatusKeysOn(table, day), StatusKeysOn(after, day);
    if !IsStatusKey(key, day) {
      assert keys == keysAfter;
      SumAgrees(keys, table, after);
    } else {
      SumPicks(keysAfter, after, key);
      assert keysAfter - {key} == keys - {key};
      SumAgrees(keys - {key}, table, after);
      if key in table {
        SumPicks(keys, table, key);
      } else {
        assert keys - {key} == keys;
      }
    }
  }

  // ------------------------------------------------------------------ a day's total against its status rows

  predicate DistinctStatuses(rows: seq<Row>, day: int) {
    forall i, j | 0 <= i < j < |rows| && DayOf(rows[i]) == DayOf(rows[j]) == day :: CodeOf(rows[i]) != CodeOf(rows[j])
  }

  predicate Positive(rows: seq<Row>) {
    forall i | 0 <= i < |rows| :: rows[i].hits > 0.0
  }

  predicate HasRow(rows: seq<Row>, key: Key) {
    exists i :: 0 <= i < |rows| && KeyOf(rows[i]) == key
  }

  function StatusTable(rows: seq<Row>, now: int): Table {
    Upserted(map[], StatusObservations(rows), now)
  }

  lemma {:induction false} StatusTableGrows(rows: seq<Row>, now: int)
    requires rows != []
    ensures var last := rows[|rows| - 1];
      StatusTable(rows, now) == StatusTable(rows[..|rows| - 1], now)[KeyOf(last) := Stored(last.hits, now)]
  {
    hide KeyOf, Upserted;
    var observations := StatusObservations(rows);
    UpsertedLast(map[], observations, now);
    assert observations[..|observations| - 1] == StatusObservations(rows[..|rows| - 1]);
  }

  lemma {:induction false} DistinctLast(rows: seq<Row>, day: int)
    requires rows != []
    ensures var init, last := rows[..|rows| - 1], rows[|rows| - 1];
      DistinctStatuses(rows, day)
      <==> DistinctStatuses(init, day) && (DayOf(last) == day ==> !HasRow(init, KeyOf(last)))
  {
    var init, last := rows[..|rows| - 1], rows[|rows| - 1];
    assert rows == init + [last];
    hide KeyOf, DayOf, CodeOf, DistinctStatuses, HasRow;
    SameKeys(init, last);
    LastStatus(init, last, day);
  }

  lemma {:induction false} LastStatus(init: seq<Row>, last: Row, day: int)
    requires forall i | 0 <= i < |init| ::
              KeyOf(init[i]) == KeyOf(last) <==> DayOf(init[i]) == DayOf(last) && CodeOf(init[i]) == CodeOf(last)
    ensures DistinctStatuses(init + [last], day)
        <==> DistinctStatuses(init, day) && (DayOf(last) == day ==> !HasRow(init, KeyOf(last)))
  {
    hide KeyOf, DayOf, CodeOf;
    var rows := init + [last];
    assert forall i | 0 <= i < |init| :: rows[i] == init[i];
    if DistinctStatuses(rows, day) && DayOf(last) == day {
      forall i | 0 <= i < |init|
        ensures KeyOf(init[i]) != KeyOf(last)
      {
        assert rows[|init|] == last;
      }
    }
  }

  lemma {:induction false} SameKeys(init: seq<Row>, last: Row)
    ensures forall i | 0 <= i < |init| ::
              KeyOf(init[i]) == KeyOf(last) <==> DayOf(init[i]) == DayOf(last) && CodeOf(init[i]) == CodeOf(last)
  {
    hide StatusKey, DayOf, CodeOf;
    forall i | 0 <= i < |init|
      ensures KeyOf(init[i]) == KeyOf(last) <==> DayOf(init[i]) == DayOf(last) && CodeOf(init[i]) == CodeOf(last)
    {
      StatusKeysDiffer(DayOf(init[i]), CodeOf(init[i]), DayOf(last), CodeOf(last));
    }
  }

  lemma {:induction false} StatusTableHasRows(rows: seq<Row>, now: int, key: Key)
    ensures key in StatusTable(rows, now) <==> HasRow(rows, key)
    ensures Positive(rows) && key in StatusTable(rows, now) ==> StatusTable(rows, now)[key].value > 0.0
  {
    hide KeyOf, StatusTable;
    if rows == [] {
      EmptyTable(now);
    } else {
      var init, last := rows[..|rows| - 1], rows[|rows| - 1];
      StatusTableHasRows(init, now, key);
      StatusTableGrows(rows, now);
      assert forall i | 0 <= i < |init| :: rows[i] == init[i];
      assert rows[|init|] == last;
    }
  }

  lemma {:induction false} EmptyTable(now: int)
    ensures StatusTable([], now) == map[] && forall day :: DistinctStatuses([], day)
  {
  }

  lemma {:induction false} StatusesAgainstTotal(rows: seq<Row>, day: int, now: int)
    requires Positive(rows)
    ensures StatusSum(StatusTable(rows, now), day) <= TotalHits(rows, day)
    ensures StatusSum(StatusTable(rows, now), day) == TotalHits(rows, day) <==> DistinctStatuses(rows, day)
  {
    hide KeyOf, StatusTable, DayOf, CodeOf, IsStatusKey, DistinctStatuses, HasRow;
    if rows == [] {
      EmptyTable(now);
      assert StatusKeysOn(map[], day) == {};
    } else {
      var init, last := rows[..|rows| - 1], rows[|rows| - 1];
      hide StatusSum;
      StatusesAgainstTotal(init, day, now);
      StatusTableGrows(rows, now);
      SumAfterWrite(StatusTable(init, now), KeyOf(last), Stored(last.hits, now), day);
      StatusTableHasRows(init, now, KeyOf(last));
      KeyIsOfDay(last, day);
      DistinctLast(rows, day);
    }
  }

  lemma {:induction false} KeyIsOfDay(row: Row, day: int)
    ensures IsStatusKey(KeyOf(row), day) <==> DayOf(row) == day
  {
    KindsOfKeys(DayOf(row), CodeOf(row), day);
  }

  lemma {:induction false} LastOfTotals(rows: seq<Row>, key: Key)
    ensures LastValue(TotalObservations(DaysOf(rows), rows), key)
         == if key == TotalKey(key.day) && key.day in DaysOf(rows) then Some(TotalHits(rows, key.day)) else None
  {
    var observations := TotalObservations(DaysOf(rows), rows);
    hide LastValue, DaysOf, TotalHits;
    LastValueIsReported(observations, key);
    if key == TotalKey(key.day) && key.day in DaysOf(rows) {
      var i :| 0 <= i < |DaysOf(rows)| && DaysOf(rows)[i] == key.day;
      assert observations[i] in observations && observations[i].key == key;
    }
  }

  lemma {:induction false} StatusesLast(rows: seq<Row>, now: int, key: Key)
    ensures match LastValue(StatusObservations(rows), key)
            case Some(value) => key in StatusTable(rows, now) && StatusTable(rows, now)[key] == Stored(value, now)
            case None => key !in StatusTable(rows, now)
  {
    hide LastValue, Upserted;
    UpsertStoresLastValues(map[], StatusObservations(rows), now);
  }

  /** What a run leaves at a key: totals at the total keys of the days it reports, last hits at the status keys it
      reports, and everything else as it was. */
  lemma {:induction false} AfterRun(table: Table, rows: seq<Row>, now: int, key: Key)
    ensures var after, statuses := Upserted(table, CloudflareObservations(rows), now), StatusTable(rows, now);
      && (key == TotalKey(key.day) && key.day in DaysOf(rows) ==>
            key in after && after[key] == Stored(TotalHits(rows, key.day), now))
      && (IsStatusKey(key, key.day) ==> (key in after <==> key in table || key in statuses))
      && (IsStatusKey(key, key.day) && key in statuses ==> after[key] == statuses[key])
      && (IsStatusKey(key, key.day) && key !in statuses && key in table ==> after[key] == table[key])
  {
    KindsOfKeys(key.day, 0, key.day);
    hide LastValue, Upserted, DaysOf, TotalHits, StatusTable, StatusObservations, TotalObservations,
         IsStatusKey, TotalKey;
    UpsertStoresLastValues(table, CloudflareObservations(rows), now);
    LastValueOfConcat(StatusObservations(rows), TotalObservations(DaysOf(rows), rows), key);
    LastOfTotals(rows, key);
    StatusesLast(rows, now, key);
  }

  /** Stored status rows count something. */
  predicate PositiveStatuses(table: Table, day: int) {
    forall k | k in StatusKeysOn(table, day) :: table[k].value > 0.0
  }

  /** The stored status rows of a day that an answer has no row for. */
  function StaleKeys(table: Table, rows: seq<Row>, day: int): set<Key> {
    set k | k in StatusKeysOn(table, day) && !HasRow(rows, k)
  }

  ghost function StaleSum(table: Table, rows: seq<Row>, day: int): real {
    Sum(StaleKeys(table, rows, day), table)
  }

  lemma {:induction false} SumSplits(keys: set<Key>, more: set<Key>, table: Table)
    requires keys <= table.Keys && more <= table.Keys && keys !! more
    ensures Sum(keys + more, table) == Sum(keys, table) + Sum(more, table)
    decreases |keys|
  {
    if keys == {} {
      assert keys + more == more;
    } else {
      var k :| k in keys;
      SumPicks(keys, table, k);
      SumPicks(keys + more, table, k);
      assert keys + more - {k} == (keys - {k}) + more;
      SumSplits(keys - {k}, more, table);
    }
  }

  lemma {:induction false} SumPositive(keys: set<Key>, table: Table)
    requires keys <= table.Keys && forall k | k in keys :: table[k].value > 0.0
    ensures Sum(keys, table) >= 0.0 && (Sum(keys, table) == 0.0 <==> keys == {})
    decreases |keys|
  {
    if keys != {} {
      var k :| k in keys;
      SumPicks(keys, table, k);
      SumPositive(keys - {k}, table);
    }
  }

  /** What a run leaves at a status key of a day. */
  lemma {:induction false} StatusAfterRun(table: Table, rows: seq<Row>, day: int, now: int, k: Key)
    requires IsStatusKey(k, day)
    ensures var after, statuses := Upserted(table, CloudflareObservations(rows), now), StatusTable(rows, now);
      && (k in after <==> k in statuses || k in StaleKeys(table, rows, day))
      && (k in statuses ==> k !in StaleKeys(table, rows, day) && after[k] == statuses[k])
      && (k in StaleKeys(table, rows, day) ==> after[k] == table[k])
  {
    hide Upserted, CloudflareObservations, StatusTable, HasRow;
    AfterRun(table, rows, now, k);
    StatusTableHasRows(rows, now, k);
  }

  /** After a run, a day's status rows are those it reported and those gone stale. */
  lemma {:induction false} StatusesAfterRun(table: Table, rows: seq<Row>, day: int, now: int)
    ensures StatusSum(Upserted(table, CloudflareObservations(rows), now), day)
         == StatusSum(StatusTable(rows, now), day) + StaleSum(table, rows, day)
  {
    var after, statuses := Upserted(table, CloudflareObservations(rows), now), StatusTable(rows, now);
    var reported, stale := StatusKeysOn(statuses, day), StaleKeys(table, rows, day);
    hide Upserted, CloudflareObservations, StatusTable, HasRow, IsStatusKey;
    forall k | IsStatusKey(k, day)
      ensures k in after <==> k in reported + stale
      ensures k in reported ==> k !in stale && after[k] == statuses[k]
      ensures k in stale ==> after[k] == table[k]
    {
      StatusAfterRun(table, rows, day, now, k);
    }
    assert StatusKeysOn(after, day) == reported + stale;
    SumSplits(reported, stale, after);
    SumAgrees(reported, after, statuses);
    SumAgrees(stale, after, table);
  }

  /** After a run that reports a day, the day's stored total is the sum of the hits reported for it. The stored status
      rows add up to what is reported for distinct statuses, and what has gone stale. When no two rows of the day round
      to one status, they add up to the total exactly when none of them is stale; and when none is stale, exactly when
      no two rows of the day round to one status. */
  lemma {:induction false} DayTotalIsTheSumIff(table: Table, rows: seq<Row>, day: int, now: int)
    requires Positive(rows) && day in DaysOf(rows) && PositiveStatuses(table, day)
    ensures var after := Upserted(table, CloudflareObservations(rows), now);
      && TotalKey(day) in after && after[TotalKey(day)].value == TotalHits(rows, day)
      && (DistinctStatuses(rows, day) ==>
            && StatusSum(after, day) == after[TotalKey(day)].value + StaleSum(table, rows, day)
            && StatusSum(after, day) >= after[TotalKey(day)].value
            && (StatusSum(after, day) == after[TotalKey(day)].value
                <==> forall k | k in StatusKeysOn(table, day) :: HasRow(rows, k)))
      && ((forall k | k in StatusKeysOn(table, day) :: HasRow(rows, k)) ==>
            && StatusSum(after, day) <= after[TotalKey(day)].value
            && (StatusSum(after, day) == after[TotalKey(day)].value <==> DistinctStatuses(rows, day)))
  {
    hide Upserted, CloudflareObservations, StatusTable, DaysOf, TotalHits, DistinctStatuses, HasRow,
         IsStatusKey, StatusSum;
    AfterRun(table, rows, now, TotalKey(day));
    StatusesAfterRun(table, rows, day, now);
    SumPositive(StaleKeys(table, rows, day), table);
    StatusesAgainstTotal(rows, day, now);
    NoneIsStaleIff(table, rows, day);
  }

  lemma {:induction false} NoneIsStaleIff(table: Table, rows: seq<Row>, day: int)
    ensures StaleKeys(table, rows, day) == {} <==> forall k | k in StatusKeysOn(table, day) :: HasRow(rows, k)
  {
    hide HasRow, StatusKeysOn;
    forall k | k in StatusKeysOn(table, day) && !HasRow(rows, k)
      ensures k in StaleKeys(table, rows, day)
    {
    }
  }

  /** Runs that report positive counts keep every stored status row positive. */
  lemma {:induction false} StatusesStayPositive(table: Table, rows: seq<Row>, day: int, now: int)
    requires Positive(rows) && PositiveStatuses(table, day)
    ensures PositiveStatuses(Upserted(table, CloudflareObservations(rows), now), day)
  {
    var after := Upserted(table, CloudflareObservations(rows), now);
    hide Upserted, CloudflareObservations, StatusTable, HasRow, IsStatusKey;
    forall k | k in StatusKeysOn(after, day)
      ensures after[k].value > 0.0
    {
      StatusAfterRun(table, rows, day, now, k);
      StatusTableHasRows(rows, now, k);
    }
  }

  // ------------------------------------------------------------------ the query's window cuts its oldest day

  /** A request, and the status it was answered with. */
  datatype Request = Request(second: int, status: nat)

  predicate IsOfDay(request: Request, day: int) {
    request.second / SECONDS_PER_DAY == day
  }

  predicate Counted(request: Request, after: int, upTo: int, day: int) {
    after < request.second <= upTo && IsOfDay(request, day)
  }

  /** How many requests of a day lie in a window of time. */
  function Seen(log: seq<Request>, after: int, upTo: int, day: int): (count: nat)
    ensures count <= |log|
  {
    if log == [] then 0
    else Seen(log[..|log| - 1], after, upTo, day) + (if Counted(log[|log| - 1], after, upTo, day) then 1 else 0)
  }

  function AllOf(log: seq<Request>, day: int): nat {
    if log == [] then 0
    else AllOf(log[..|log| - 1], day) + (if IsOfDay(log[|log| - 1], day) then 1 else 0)
  }

  /** What a run at second `t`, asking for `days` days, counts for a day. */
  function SeenAt(log: seq<Request>, t: int, days: nat, day: int): nat {
    Seen(log, t - days * SECONDS_PER_DAY, t, day)
  }

  /** How many requests of a day, answered with a status, a run at second `t` counts. */
  function SeenWith(log: seq<Request>, t: int, days: nat, day: int, code: int): nat {
    if log == [] then 0
    else
      var last := log[|log| - 1];
      SeenWith(log[..|log| - 1], t, days, day, code)
      + (if last.status == code && Counted(last, t - days * SECONDS_PER_DAY, t, day) then 1 else 0)
  }

  /** An answer to the query, as far as one day goes: a row for each status that was counted. */
  ghost predicate AnswersFor(rows: seq<Row>, log: seq<Request>, t: int, days: nat, day: int) {
    && Positive(rows) && DistinctStatuses(rows, day)
    && (forall code: int :: HasRow(rows, StatusKey(day, code)) <==> SeenWith(log, t, days, day, code) > 0)
    && forall i | 0 <= i < |rows| && DayOf(rows[i]) == day ::
         rows[i].hits == SeenWith(log, t, days, day, CodeOf(rows[i])) as real
  }

  /** One successful run: when the query was sent, and its answer. */
  datatype HitsRun = HitsRun(second: int, rows: seq<Row>)

  /** What the runs write. */
  function Attempts(runs: seq<HitsRun>): (attempts: seq<Attempt>)
    ensures |attempts| == |runs|
  {
    if runs == [] then []
    else
      var last := runs[|runs| - 1];
      Attempts(runs[..|runs| - 1]) + [Attempt(SOURCE, last.second, Ok(CloudflareObservations(last.rows)))]
  }

  ghost predicate AllAnswered(runs: seq<HitsRun>, log: seq<Request>, days: nat, day: int) {
    forall r | r in runs :: AnswersFor(r.rows, log, r.second, days, day)
  }

  /** The last run that counted anything for a day: a day without a row keeps the count it had. */
  function LastSeeing(log: seq<Request>, runs: seq<HitsRun>, days: nat, day: int): Option<int> {
    if runs == [] then None
    else if SeenAt(log, runs[|runs| - 1].second, days, day) > 0 then Some(runs[|runs| - 1].second)
    else LastSeeing(log, runs[..|runs| - 1], days, day)
  }

  predicate InWindowOf(second: int, t: int, days: nat) {
    t - days * SECONDS_PER_DAY < second <= t
  }

  lemma {:induction false} SeenAgainstAll(log: seq<Request>, t: int, days: nat, day: int)
    ensures SeenAt(log, t, days, day) <= AllOf(log, day)
    ensures SeenAt(log, t, days, day) == AllOf(log, day)
        <==> forall i | 0 <= i < |log| && IsOfDay(log[i], day) :: InWindowOf(log[i].second, t, days)
    ensures SeenAt(log, t, days, day) > 0
        <==> exists i :: 0 <= i < |log| && IsOfDay(log[i], day) && InWindowOf(log[i].second, t, days)
  {
    if log != [] {
      var init := log[..|log| - 1];
      SeenAgainstAll(init, t, days, day);
      assert forall i | 0 <= i < |init| :: init[i] == log[i];
    }
  }

  // ------------------------------------------------------------------ an answer's total is the count of the day

  /** The statuses an answer has rows for. */
  function CodesOn(rows: seq<Row>, day: int): set<int> {
    if rows == [] then {}
    else CodesOn(rows[..|rows| - 1], day) + if DayOf(rows[|rows| - 1]) == day then {CodeOf(rows[|rows| - 1])} else {}
  }

  /** How many of the requests that a run counts were answered with one of the statuses. */
  function SeenAmong(log: seq<Request>, t: int, days: nat, day: int, codes: set<int>): nat {
    if log == [] then 0
    else
      var last := log[|log| - 1];
      SeenAmong(log[..|log| - 1], t, days, day, codes)
      + (if last.status in codes && Counted(last, t - days * SECONDS_PER_DAY, t, day) then 1 else 0)
  }

  lemma {:induction false} SeenAmongOneMore(log: seq<Request>, t: int, days: nat, day: int, codes: set<int>, code: int)
    requires code !in codes
    ensures SeenAmong(log, t, days, day, codes + {code})
         == SeenAmong(log, t, days, day, codes) + SeenWith(log, t, days, day, code)
  {
    if log != [] {
      hide Counted;
      SeenAmongOneMore(log[..|log| - 1], t, days, day, codes, code);
    }
  }

  lemma {:induction false} SeenAmongAll(log: seq<Request>, t: int, days: nat, day: int, codes: set<int>)
    requires forall i | 0 <= i < |log| && Counted(log[i], t - days * SECONDS_PER_DAY, t, day) :: log[i].status in codes
    ensures SeenAmong(log, t, days, day, codes) == SeenAt(log, t, days, day)
  {
    if log != [] {
      hide Counted;
      SeenAmongAll(log[..|log| - 1], t, days, day, codes);
    }
  }

  lemma {:induction false} SeenAmongNone(log: seq<Request>, t: int, days: nat, day: int)
    ensures SeenAmong(log, t, days, day, {}) == 0
  {
    if log != [] {
      SeenAmongNone(log[..|log| - 1], t, days, day);
    }
  }

  lemma {:induction false} CountedIsSeen(log: seq<Request>, t: int, days: nat, day: int, i: nat)
    requires i < |log| && Counted(log[i], t - days * SECONDS_PER_DAY, t, day)
    ensures SeenWith(log, t, days, day, log[i].status) > 0
  {
    hide Counted;
    if i < |log| - 1 {
      CountedIsSeen(log[..|log| - 1], t, days, day, i);
    }
  }

  lemma {:induction false} SeenWithIsSeen(log: seq<Request>, t: int, days: nat, day: int, code: int)
    ensures SeenWith(log, t, days, day, code) <= SeenAt(log, t, days, day)
  {
    if log != [] {
      hide Counted;
      SeenWithIsSeen(log[..|log| - 1], t, days, day, code);
    }
  }

  lemma {:induction false} HasRowGrows(init: seq<Row>, last: Row, key: Key)
    ensures HasRow(init + [last], key) <==> HasRow(init, key) || KeyOf(last) == key
  {
    hide KeyOf;
    var rows := init + [last];
    assert forall i | 0 <= i < |init| :: rows[i] == init[i];
    assert rows[|init|] == last;
  }

  lemma {:induction false} NoRows(key: Key)
    ensures !HasRow([], key)
  {
  }

  lemma {:induction false} RowsOfCodes(rows: seq<Row>, day: int, code: int)
    ensures code in CodesOn(rows, day) <==> HasRow(rows, StatusKey(day, code))
  {
    hide DayOf, CodeOf, StatusKey, HasRow;
    if rows == [] {
      NoRows(StatusKey(day, code));
    } else {
      var init, last := rows[..|rows| - 1], rows[|rows| - 1];
      RowsOfCodes(init, day, code);
      StatusKeysDiffer(DayOf(last), CodeOf(last), day, code);
      assert rows == init + [last];
      HasRowGrows(init, last, StatusKey(day, code));
    }
  }

  /** Rows for different statuses, each with its count, add up to the count for all of them. */
  lemma {:induction false} RowsAddUp(rows: seq<Row>, log: seq<Request>, t: int, days: nat, day: int)
    requires DistinctStatuses(rows, day)
    requires forall i | 0 <= i < |rows| && DayOf(rows[i]) == day ::
               rows[i].hits == SeenWith(log, t, days, day, CodeOf(rows[i])) as real
    ensures TotalHits(rows, day) == SeenAmong(log, t, days, day, CodesOn(rows, day)) as real
  {
    if rows == [] {
      SeenAmongNone(log, t, days, day);
    } else {
      var init, last := rows[..|rows| - 1], rows[|rows| - 1];
      DistinctLast(rows, day);
      assert DayOf(last) == day ==> KeyOf(last) == StatusKey(day, CodeOf(last));
      hide DayOf, CodeOf, HasRow, DistinctStatuses, SeenAmong, SeenWith, StatusKey;
      RowsAddUp(init, log, t, days, day);
      RowsOfCodes(init, day, CodeOf(last));
      if DayOf(last) == day {
        SeenAmongOneMore(log, t, days, day, CodesOn(init, day), CodeOf(last));
      } else {
        assert CodesOn(init, day) + {} == CodesOn(init, day);
      }
    }
  }

  /** Every counted request has a row in the answer. */
  lemma {:induction false} CountedHaveRows(rows: seq<Row>, log: seq<Request>, t: int, days: nat, day: int)
    requires AnswersFor(rows, log, t, days, day)
    ensures TotalHits(rows, day) == SeenAt(log, t, days, day) as real
  {
    hide HasRow, DistinctStatuses, SeenAmong, SeenWith, StatusKey, Counted, CodesOn, TotalHits, DayOf, CodeOf;
    RowsAddUp(rows, log, t, days, day);
    forall i | 0 <= i < |log| && Counted(log[i], t - days * SECONDS_PER_DAY, t, day)
      ensures log[i].status in CodesOn(rows, day)
    {
      CountedIsSeen(log, t, days, day, i);
      RowsOfCodes(rows, day, log[i].status);
    }
    SeenAmongAll(log, t, days, day, CodesOn(rows, day));
  }

  /** An answer has rows of a day exactly when the query counted some request of it. */
  lemma {:induction false} DayIsReportedIff(rows: seq<Row>, log: seq<Request>, t: int, days: nat, day: int)
    requires AnswersFor(rows, log, t, days, day)
    ensures day in DaysOf(rows) <==> SeenAt(log, t, days, day) > 0
  {
    CountedHaveRows(rows, log, t, days, day);
    DaysOfRows(rows, day);
    hide SeenWith, SeenAt, StatusKey, DistinctStatuses, CodeOf, DaysOf, TotalHits;
    if day in DaysOf(rows) {
      var i :| 0 <= i < |rows| && DayOf(rows[i]) == day;
      assert KeyOf(rows[i]) == StatusKey(day, CodeOf(rows[i]));
      assert HasRow(rows, StatusKey(day, CodeOf(rows[i])));
      SeenWithIsSeen(log, t, days, day, CodeOf(rows[i]));
    }
  }

  lemma {:induction false} StatusesReportNoTotal(rows: seq<Row>, day: int)
    ensures LastValue(StatusObservations(rows), TotalKey(day)) == None
  {
    hide LastValue, StatusObservations, StatusTable, TotalKey, StatusKey;
    StatusesLast(rows, 0, TotalKey(day));
    StatusTableHasRows(rows, 0, TotalKey(day));
    forall i | 0 <= i < |rows|
      ensures KeyOf(rows[i]) != TotalKey(day)
    {
      KindsOfKeys(DayOf(rows[i]), CodeOf(rows[i]), day);
    }
  }

  /** What an answer reports as a day's total is the number of requests that the query counted, if any. */
  lemma {:induction false} TotalReported(rows: seq<Row>, log: seq<Request>, t: int, days: nat, day: int)
    requires AnswersFor(rows, log, t, days, day)
    ensures LastValue(CloudflareObservations(rows), TotalKey(day))
         == var seen := SeenAt(log, t, days, day); if seen > 0 then Some(seen as real) else None
  {
    assert TotalKey(day) == TotalKey(TotalKey(day).day);
    hide LastValue, AnswersFor, SeenAt, TotalHits, StatusObservations, TotalObservations, DaysOf, TotalKey;
    CountedHaveRows(rows, log, t, days, day);
    DayIsReportedIff(rows, log, t, days, day);
    StatusesReportNoTotal(rows, day);
    LastOfTotals(rows, TotalKey(day));
    LastValueOfConcat(StatusObservations(rows), TotalObservations(DaysOf(rows), rows), TotalKey(day));
  }

  // ------------------------------------------------------------------ what is stored of a cut day

  lemma {:induction false} LastTotal(runs: seq<HitsRun>, log: seq<Request>, days: nat, day: int)
    requires AllAnswered(runs, log, days, day)
    ensures match LastRow(Attempts(runs), TotalKey(day))
            case Some(row) => LastSeeing(log, runs, days, day).Some?
                              && row.value == SeenAt(log, LastSeeing(log, runs, days, day).value, days, day) as real
            case None => LastSeeing(log, runs, days, day).None?
  {
    hide SeenAt, TotalKey, LastValue, CloudflareObservations, AnswersFor;
    if runs != [] {
      var init, last := runs[..|runs| - 1], runs[|runs| - 1];
      assert Attempts(runs)[..|runs| - 1] == Attempts(init);
      assert last in runs;
      TotalReported(last.rows, log, last.second, days, day);
      LastTotal(init, log, days, day);
    }
  }

  /** After any runs, a day's stored total counts every request of the day exactly when the window of the last run
      that counted any of them held them all. */
  lemma {:induction false} StoredTotalIsCompleteIff(runs: seq<HitsRun>, log: seq<Request>, days: nat, day: int)
    requires AllAnswered(runs, log, days, day) && LastSeeing(log, runs, days, day).Some?
    ensures var table, t := AfterAttempts(map[], Attempts(runs)), LastSeeing(log, runs, days, day).value;
      && TotalKey(day) in table && table[TotalKey(day)].value <= AllOf(log, day) as real
      && (table[TotalKey(day)].value == AllOf(log, day) as real
          <==> forall i | 0 <= i < |log| && IsOfDay(log[i], day) :: InWindowOf(log[i].second, t, days))
  {
    hide AllAnswered, LastSeeing, LastRow, AfterAttempts, Attempts, SeenAt, AllOf, TotalKey;
    HistoryHoldsLastRows(map[], Attempts(runs));
    LastTotal(runs, log, days, day);
    SeenAgainstAll(log, LastSeeing(log, runs, days, day).value, days, day);
  }

  predicate Ascending(runs: seq<HitsRun>) {
    forall i, j | 0 <= i < j < |runs| :: runs[i].second <= runs[j].second
  }

  lemma {:induction false} LastSeeingIsNoEarlier(log: seq<Request>, runs: seq<HitsRun>, days: nat, day: int, i: nat)
    requires Ascending(runs) && i < |runs| && SeenAt(log, runs[i].second, days, day) > 0
    ensures LastSeeing(log, runs, days, day).Some? && LastSeeing(log, runs, days, day).value >= runs[i].second
  {
    hide SeenAt;
    if SeenAt(log, runs[|runs| - 1].second, days, day) == 0 {
      LastSeeingIsNoEarlier(log, runs[..|runs| - 1], days, day, i);
    }
  }

  /** Once a run's window begins within a day, between two of its requests, the day's stored total is short, and no
      later run makes it whole again: upserting replaces a complete count by a partial one. */
  lemma {:induction false} OnceCutAlwaysShort(runs: seq<HitsRun>, log: seq<Request>, days: nat, day: int, i: nat,
                                              early: nat, late: nat)
    requires AllAnswered(runs, log, days, day) && Ascending(runs)
    requires i < |runs| && early < |log| && late < |log| && IsOfDay(log[early], day) && IsOfDay(log[late], day)
    requires log[early].second <= runs[i].second - days * SECONDS_PER_DAY < log[late].second <= runs[i].second
    ensures var table := AfterAttempts(map[], Attempts(runs));
      TotalKey(day) in table && table[TotalKey(day)].value < AllOf(log, day) as real
  {
    hide AllAnswered, LastSeeing, AfterAttempts, Attempts, SeenAt, AllOf, TotalKey;
    SeenAgainstAll(log, runs[i].second, days, day);
    assert InWindowOf(log[late].second, runs[i].second, days);
    LastSeeingIsNoEarlier(log, runs, days, day, i);
    StoredTotalIsCompleteIff(runs, log, days, day);
    assert !InWindowOf(log[early].second, LastSeeing(log, runs, days, day).value, days);
  }

  /** So a schedule that runs once a day at one time of day ends up with every day's total short of the requests
      made before that time. */
  lemma {:induction false} DailyRunsLoseTheMorning(runs: seq<HitsRun>, log: seq<Request>, first: int, second: nat,
                                                   days: nat, day: int, early: nat, late: nat)
    requires second < SECONDS_PER_DAY && days > 0
    requires forall i | 0 <= i < |runs| :: runs[i].second == (first + i) * SECONDS_PER_DAY + second
    requires first <= day + days < first + |runs|
    requires AllAnswered(runs, log, days, day) && early < |log| && late < |log|
    requires IsOfDay(log[early], day) && IsOfDay(log[late], day)
    requires log[early].second % SECONDS_PER_DAY <= second < log[late].second % SECONDS_PER_DAY
    ensures var table := AfterAttempts(map[], Attempts(runs));
      TotalKey(day) in table && table[TotalKey(day)].value < AllOf(log, day) as real
  {
    hide AllAnswered, AfterAttempts, Attempts, AllOf, TotalKey;
    var i := day + days - first;
    assert runs[i].second == (day + days) * SECONDS_PER_DAY + second;
    OnceCutAlwaysShort(runs, log, days, day, i, early, late);
  }

  // ------------------------------------------------------------------ a cut window leaves stale statuses

  lemma {:induction false} RowMeansDay(rows: seq<Row>, day: int, code: int)
    requires HasRow(rows, StatusKey(day, code))
    ensures day in DaysOf(rows)
  {
    hide StatusKey, DaysOf, DayOf, CodeOf;
    var i :| 0 <= i < |rows| && KeyOf(rows[i]) == StatusKey(day, code);
    StatusKeysDiffer(DayOf(rows[i]), CodeOf(rows[i]), day, code);
    DaysOfRows(rows, day);
  }

  /** A status of a day that one run counts and the next, whose window begins within the day, does not: its row stays,
      and the day's stored status rows add up to more than its stored total. */
  lemma {:induction false} CutLeavesAStaleStatus(table: Table, log: seq<Request>, before: seq<Row>, after: seq<Row>,
                                                 t: int, t': int, days: nat, day: int, code: int, other: int, now: int,
                                                 now': int)
    requires PositiveStatuses(table, day)
    requires AnswersFor(before, log, t, days, day) && AnswersFor(after, log, t', days, day)
    requires SeenWith(log, t, days, day, code) > 0
    requires SeenWith(log, t', days, day, code) == 0 && SeenWith(log, t', days, day, other) > 0
    ensures var stored := Upserted(Upserted(table, CloudflareObservations(before), now),
                                   CloudflareObservations(after), now');
      TotalKey(day) in stored && StatusSum(stored, day) > stored[TotalKey(day)].value
  {
    var middle := Upserted(table, CloudflareObservations(before), now);
    hide Upserted, CloudflareObservations, StatusTable, HasRow, SeenWith, StatusKey, StatusSum,
         DaysOf, DistinctStatuses, PositiveStatuses;
    RowMeansDay(after, day, other);
    StatusesStayPositive(table, before, day, now);
    DayTotalIsTheSumIff(middle, after, day, now');
    KindsOfKeys(day, code, day);
    AfterRun(table, before, now, StatusKey(day, code));
    StatusTableHasRows(before, now, StatusKey(day, code));
    assert StatusKey(day, code) in StatusKeysOn(middle, day) && !HasRow(after, StatusKey(day, code));
  }

  function RowFor(day: int, status: nat): Row {
    Row(day * SECONDS_PER_DAY, status as real, 1.0)
  }

  /** The 404 of one o'clock and the 200 of the afternoon. */
  function TwoRequests(day: int): seq<Request> {
    [Request(day * SECONDS_PER_DAY + 3600, 404), Request(day * SECONDS_PER_DAY + 50000, 200)]
  }

  lemma {:induction false} SeenOfTwo(day: int, t: int, days: nat, code: int)
    ensures SeenWith(TwoRequests(day), t, days, day, code)
         == (if code == 404 && InWindowOf(day * SECONDS_PER_DAY + 3600, t, days) then 1 else 0)
            + (if code == 200 && InWindowOf(day * SECONDS_PER_DAY + 50000, t, days) then 1 else 0)
  {
    var log := TwoRequests(day);
    assert log[..1] == [log[0]] && log[..1][..0] == [];
    assert SeenWith([], t, days, day, code) == 0;
  }

  lemma {:induction false} RowForIs(day: int, status: nat)
    ensures DayOf(RowFor(day, status)) == day && CodeOf(RowFor(day, status)) == status
    ensures KeyOf(RowFor(day, status)) == StatusKey(day, status)
  {
  }

  lemma {:induction false} BothStatuses(day: int, t: int, days: nat, code: int)
    requires t - days * SECONDS_PER_DAY < day * SECONDS_PER_DAY + 3600 && day * SECONDS_PER_DAY + 50000 <= t
    ensures HasRow([RowFor(day, 404), RowFor(day, 200)], StatusKey(day, code))
        <==> SeenWith(TwoRequests(day), t, days, day, code) > 0
  {
    var rows := [RowFor(day, 404), RowFor(day, 200)];
    RowForIs(day, 404);
    RowForIs(day, 200);
    hide StatusKey, RowFor, DayOf, CodeOf, KeyOf, SeenWith;
    SeenOfTwo(day, t, days, code);
    StatusKeysDiffer(day, 404, day, code);
    StatusKeysDiffer(day, 200, day, code);
    assert KeyOf(rows[0]) == StatusKey(day, 404) && KeyOf(rows[1]) == StatusKey(day, 200);
  }

  lemma {:induction false} BothAreDistinct(a: Row, b: Row, day: int)
    requires CodeOf(a) != CodeOf(b) && a.hits > 0.0 && b.hits > 0.0
    ensures Positive([a, b]) && DistinctStatuses([a, b], day)
  {
  }

  lemma {:induction false} BothAreAnswered(day: int, t: int, days: nat)
    requires t - days * SECONDS_PER_DAY < day * SECONDS_PER_DAY + 3600 && day * SECONDS_PER_DAY + 50000 <= t
    ensures AnswersFor([RowFor(day, 404), RowFor(day, 200)], TwoRequests(day), t, days, day)
  {
    var rows := [RowFor(day, 404), RowFor(day, 200)];
    RowForIs(day, 404);
    RowForIs(day, 200);
    SeenOfTwo(day, t, days, 404);
    SeenOfTwo(day, t, days, 200);
    PositiveRowFor(day, 404);
    PositiveRowFor(day, 200);
    BothAreDistinct(rows[0], rows[1], day);
    hide StatusKey, RowFor, DayOf, CodeOf, KeyOf, SeenWith, HasRow, TwoRequests, Positive, DistinctStatuses, InWindowOf;
    forall code: int
      ensures HasRow(rows, StatusKey(day, code)) <==> SeenWith(TwoRequests(day), t, days, day, code) > 0
    {
      BothStatuses(day, t, days, code);
    }
  }

  lemma {:induction false} PositiveRowFor(day: int, status: nat)
    ensures RowFor(day, status).hits == 1.0
  {
  }

  lemma {:induction false} OneIsAnswered(day: int, t: int, days: nat)
    requires day * SECONDS_PER_DAY + 3600 <= t - days * SECONDS_PER_DAY < day * SECONDS_PER_DAY + 50000 <= t
    ensures AnswersFor([RowFor(day, 200)], TwoRequests(day), t, days, day)
  {
    var rows := [RowFor(day, 200)];
    RowForIs(day, 200);
    hide StatusKey, RowFor, DayOf, CodeOf, KeyOf, SeenWith;
    forall code: int
      ensures HasRow(rows, StatusKey(day, code)) <==> SeenWith(TwoRequests(day), t, days, day, code) > 0
    {
      SeenOfTwo(day, t, days, code);
      StatusKeysDiffer(day, 200, day, code);
      assert KeyOf(rows[0]) == StatusKey(day, 200);
    }
    SeenOfTwo(day, t, days, 200);
    PositiveRowFor(day, 200);
  }

  /** On every day and for every window of whole days: a run at midnight after the day and a run at noon, as many days
      later as the window is wide, store more under the day's statuses than under its total. */
  lemma {:induction false} NoonRunLeavesAStaleStatus(day: int, days: nat, now: int, now': int)
    requires days > 0
    ensures var midnight, noon := (day + 1) * SECONDS_PER_DAY, (day + days) * SECONDS_PER_DAY + 43200;
      var before, after := [RowFor(day, 404), RowFor(day, 200)], [RowFor(day, 200)];
      && AnswersFor(before, TwoRequests(day), midnight, days, day)
      && AnswersFor(after, TwoRequests(day), noon, days, day)
      && var stored := Upserted(Upserted(map[], CloudflareObservations(before), now),
                                CloudflareObservations(after), now');
         TotalKey(day) in stored && StatusSum(stored, day) > stored[TotalKey(day)].value
  {
    var midnight, noon := (day + 1) * SECONDS_PER_DAY, (day + days) * SECONDS_PER_DAY + 43200;
    BothAreAnswered(day, midnight, days);
    OneIsAnswered(day, noon, days);
    SeenOfTwo(day, midnight, days, 404);
    SeenOfTwo(day, noon, days, 404);
    SeenOfTwo(day, noon, days, 200);
    hide Upserted, CloudflareObservations, AnswersFor, SeenWith, StatusSum, RowFor, TwoRequests, TotalKey;
    CutLeavesAStaleStatus(map[], TwoRequests(day), [RowFor(day, 404), RowFor(day, 200)], [RowFor(day, 200)],
                          midnight, noon, days, day, 404, 200, now, now');
  }
}
