/** The table of observations that tools/metrics_snapshot.py keeps, and the loop over its sources. */
module MetricsStore {
  import opened Outcomes

  /** The primary key of the table; days are counted from an arbitrary day. */
  datatype Key = Key(day: int, source: string, metric: string)

  datatype Observation = Observation(key: Key, value: real)

  datatype Stored = Stored(value: real, capturedAt: int)

  type Table = map<Key, Stored>

  function Upserted(table: Table, observations: seq<Observation>, now: int): Table
    decreases |observations|
  {
    if observations == [] then table
    else Upserted(table[observations[0].key := Stored(observations[0].value, now)], observations[1..], now)
  }

  /** The last value that a list of observations gives a key. */
  function LastValue(observations: seq<Observation>, key: Key): Option<real> {
    if observations == [] then None
    else if observations[|observations| - 1].key == key then Some(observations[|observations| - 1].value)
    else LastValue(observations[..|observations| - 1], key)
  }

  lemma {:induction false} UpsertedLast(table: Table, observations: seq<Observation>, now: int)
    requires observations != []
    ensures var last := observations[|observations| - 1];
      Upserted(table, observations, now)
      == Upserted(table, observations[..|observations| - 1], now)[last.key := Stored(last.value, now)]
    decreases |observations|
  {
    if |observations| > 1 {
      UpsertedLast(table[observations[0].key := Stored(observations[0].value, now)], observations[1..], now);
      assert observations[..|observations| - 1][1..] == observations[1..][..|observations| - 2];
    }
  }

  /** Upserting gives every key its last value, and leaves the rows of all other keys as they were. */
  lemma {:induction false} UpsertStoresLastValues(table: Table, observations: seq<Observation>, now: int)
    ensures var after := Upserted(table, observations, now);
      && (forall k :: k in after <==> k in table || LastValue(observations, k).Some?)
      && forall k | k in after
           :: after[k] == match LastValue(observations, k)
                          case Some(value) => Stored(value, now)
                          case None => table[k]
    decreases |observations|
  {
    if observations != [] {
      hide Upserted;
      UpsertedLast(table, observations, now);
      UpsertStoresLastValues(table, observations[..|observations| - 1], now);
    } else {
      assert Upserted(table, observations, now) == table;
    }
  }

  /** Position `i` is where a list last observes a key. */
  ghost predicate LastAt(observations: seq<Observation>, key: Key, value: real, i: nat) {
    && i < |observations| && observations[i] == Observation(key, value)
    && forall j | i < j < |observations| :: observations[j].key != key
  }

  lemma {:induction false} LastValueIff(observations: seq<Observation>, key: Key, value: real)
    ensures LastValue(observations, key) == Some(value) <==> exists i: nat :: LastAt(observations, key, value, i)
  {
    if observations != [] {
      var init, last := observations[..|observations| - 1], observations[|observations| - 1];
      LastValueIff(init, key, value);
      if last.key == key {
        assert forall i: nat | LastAt(observations, key, value, i) :: i == |init|;
        assert last.value == value ==> LastAt(observations, key, value, |init|);
      } else {
        assert forall i: nat :: LastAt(observations, key, value, i) <==> LastAt(init, key, value, i);
      }
    }
  }

  lemma {:induction false} LastValueOfConcat(a: seq<Observation>, b: seq<Observation>, key: Key)
    ensures LastValue(a + b, key) == if LastValue(b, key).Some? then LastValue(b, key) else LastValue(a, key)
    decreases |b|
  {
    if b == [] {
      assert a + b == a;
    } else {
      assert (a + b)[..|a + b| - 1] == a + b[..|b| - 1];
      LastValueOfConcat(a, b[..|b| - 1], key);
    }
  }

  lemma {:induction false} LastValueIsReported(observations: seq<Observation>, key: Key)
    ensures LastValue(observations, key).Some? <==> exists o :: o in observations && o.key == key
    ensures LastValue(observations, key).Some? ==> Observation(key, LastValue(observations, key).value) in observations
  {
    if observations != [] {
      var init := observations[..|observations| - 1];
      LastValueIsReported(init, key);
      assert observations == init + [observations[|observations| - 1]];
    }
  }

  // ------------------------------------------------------------------ one source after another

  /** What collecting one source came to, and when it was written. */
  datatype Attempt = Attempt(source: string, at: int, outcome: Result<seq<Observation>, string>)

  datatype RunRow = RunRow(source: string, succeeded: bool, rowsWritten: nat)

  function AfterAttempt(table: Table, a: Attempt): Table {
    match a.outcome
    case Ok(observations) => Upserted(table, observations, a.at)
    case Err(_) => table
  }

  function AfterAttempts(table: Table, attempts: seq<Attempt>): Table {
    if attempts == [] then table
    else AfterAttempt(AfterAttempts(table, attempts[..|attempts| - 1]), attempts[|attempts| - 1])
  }

  function Failed(attempts: seq<Attempt>): seq<string> {
    if attempts == [] then []
    else Failed(attempts[..|attempts| - 1])
         + (if attempts[|attempts| - 1].outcome.Err? then [attempts[|attempts| - 1].source] else [])
  }

  lemma {:induction false} FailedOfConcat(a: seq<Attempt>, b: seq<Attempt>)
    ensures Failed(a + b) == Failed(a) + Failed(b)
    decreases |b|
  {
    if b == [] {
      assert a + b == a;
    } else {
      assert (a + b)[..|a + b| - 1] == a + b[..|b| - 1];
      FailedOfConcat(a, b[..|b| - 1]);
    }
  }

  /** The failing sources: those of the attempts that fail, before, of and after any one attempt. */
  lemma {:induction false} FailedAre(attempts: seq<Attempt>, i: nat)
    requires i < |attempts|
    ensures Failed(attempts)
         == Failed(attempts[..i]) + (if attempts[i].outcome.Err? then [attempts[i].source] else [])
            + Failed(attempts[i + 1..])
  {
    assert attempts == attempts[..i + 1] + attempts[i + 1..];
    FailedOfConcat(attempts[..i + 1], attempts[i + 1..]);
    assert attempts[..i + 1][..i] == attempts[..i];
  }

  /** The record of an attempt. */
  ghost predicate Records(row: RunRow, a: Attempt) {
    && row.source == a.source
    && (a.outcome.Err? ==> !row.succeeded && row.rowsWritten == 0)
    && (a.outcome.Ok? ==> row.succeeded && row.rowsWritten == |a.outcome.value|)
  }

  class Database {
    var observations: Table
    var runs: seq<RunRow>

    constructor ()
      ensures observations == map[] && runs == []
    {
      observations, runs := map[], [];
    }

    /** `write_observations`. */
    method WriteObservations(rows: seq<Observation>, now: int) returns (written: nat)
      modifies this`observations
      ensures observations == Upserted(old(observations), rows, now) && written == |rows|
    {
      assert rows[0..] == rows;
      for i := 0 to |rows|
        invariant Upserted(observations, rows[i..], now) == Upserted(old(observations), rows, now)
      {
        assert rows[i..][1..] == rows[i + 1..];
        observations := observations[rows[i].key := Stored(rows[i].value, now)];
      }
      return |rows|;
    }

    /** The loop of `main`: a source that fails is recorded and passed over; a dry run writes nothing. */
    method Snapshot(attempts: seq<Attempt>, dryRun: bool) returns (failures: seq<string>)
      modifies this
      ensures failures == Failed(attempts)
      ensures dryRun ==> observations == old(observations) && runs == old(runs)
      ensures !dryRun ==> observations == AfterAttempts(old(observations), attempts)
      ensures !dryRun ==> |runs| == |old(runs)| + |attempts| && runs[..|old(runs)|] == old(runs)
      ensures !dryRun ==> forall i | 0 <= i < |attempts| :: Records(runs[|old(runs)| + i], attempts[i])
    {
      hide Upserted;
      failures := [];
      for i := 0 to |attempts|
        invariant failures == Failed(attempts[..i])
        invariant dryRun ==> observations == old(observations) && runs == old(runs)
        invariant !dryRun ==> observations == AfterAttempts(old(observations), attempts[..i])
        invariant !dryRun ==> |runs| == |old(runs)| + i && runs[..|old(runs)|] == old(runs)
        invariant !dryRun ==> forall j | 0 <= j < i :: Records(runs[|old(runs)| + j], attempts[j])
      {
        assert attempts[..i + 1][..i] == attempts[..i];
        var attempt := attempts[i];
        match attempt.outcome
        case Err(_) =>
          failures := failures + [attempt.source];
          if !dryRun {
            runs := runs + [RunRow(attempt.source, false, 0)];
          }
        case Ok(rows) =>
          if !dryRun {
            var written := WriteObservations(rows, attempt.at);
            runs := runs + [RunRow(attempt.source, true, written)];
          }
      }
      assert attempts[..|attempts|] == attempts;
    }
  }

  // ------------------------------------------------------------------ what a history of runs keeps

  function Reported(a: Attempt, key: Key): Option<real> {
    match a.outcome
    case Ok(observations) => LastValue(observations, key)
    case Err(_) => None
  }

  /** The last row that a history of attempts writes for a key. */
  function LastRow(attempts: seq<Attempt>, key: Key): Option<Stored> {
    if attempts == [] then None
    else
      var last := attempts[|attempts| - 1];
      match Reported(last, key)
      case Some(value) => Some(Stored(value, last.at))
      case None => LastRow(attempts[..|attempts| - 1], key)
  }

  /** In every history: a key is stored exactly when it was there before or some attempt reported it, and its row is
      the last one written. */
  lemma {:induction false} HistoryHoldsLastRows(table: Table, attempts: seq<Attempt>)
    ensures var after := AfterAttempts(table, attempts);
      && (forall k :: k in after <==> k in table || LastRow(attempts, k).Some?)
      && forall k | k in after
           :: after[k] == match LastRow(attempts, k)
                          case Some(row) => row
                          case None => table[k]
  {
    hide Upserted, LastValue;
    if attempts != [] {
      var init, last := attempts[..|attempts| - 1], attempts[|attempts| - 1];
      HistoryHoldsLastRows(table, init);
      if last.outcome.Ok? {
        UpsertStoresLastValues(AfterAttempts(table, init), last.outcome.value, last.at);
      }
    }
  }

  /** The last attempt that reports a key, and where in its observations it last does. */
  ghost predicate LastReport(attempts: seq<Attempt>, key: Key, row: Stored, n: nat, i: nat) {
    && n < |attempts| && attempts[n].outcome.Ok?
    && LastAt(attempts[n].outcome.value, key, row.value, i) && row.capturedAt == attempts[n].at
    && forall m, o | n < m < |attempts| && attempts[m].outcome.Ok? && o in attempts[m].outcome.value :: o.key != key
  }

  lemma {:induction false} ReportedIff(a: Attempt, key: Key, value: real)
    ensures Reported(a, key) == Some(value)
        <==> a.outcome.Ok? && exists i: nat :: LastAt(a.outcome.value, key, value, i)
    ensures Reported(a, key) == None <==> a.outcome.Ok? ==> forall o | o in a.outcome.value :: o.key != key
  {
    hide LastValue;
    if a.outcome.Ok? {
      LastValueIff(a.outcome.value, key, value);
      LastValueIsReported(a.outcome.value, key);
    }
  }

  lemma {:induction false} LastRowIff(attempts: seq<Attempt>, key: Key, row: Stored)
    ensures LastRow(attempts, key) == Some(row) <==> exists n: nat, i: nat :: LastReport(attempts, key, row, n, i)
  {
    if attempts != [] {
      hide Reported, LastAt;
      var init, last := attempts[..|attempts| - 1], attempts[|attempts| - 1];
      LastRowIff(init, key, row);
      ReportedIff(last, key, row.value);
      if Reported(last, key).Some? {
        assert forall n: nat, i: nat | LastReport(attempts, key, row, n, i) :: n == |init|;
        assert forall i: nat :: LastReport(attempts, key, row, |init|, i)
                 <==> last.outcome.Ok? && LastAt(last.outcome.value, key, row.value, i) && row.capturedAt == last.at;
      } else {
        forall n: nat, i: nat
          ensures LastReport(attempts, key, row, n, i) <==> LastReport(init, key, row, n, i)
        {
          assert LastReport(attempts, key, row, n, i) && n == |init| ==> Reported(last, key) == Some(row.value);
        }
      }
    }
  }

  lemma {:induction false} LastRowOfConcat(a: seq<Attempt>, b: seq<Attempt>, key: Key)
    ensures LastRow(a + b, key) == if LastRow(b, key).Some? then LastRow(b, key) else LastRow(a, key)
    decreases |b|
  {
    hide Reported;
    if b == [] {
      assert a + b == a;
    } else {
      assert (a + b)[..|a + b| - 1] == a + b[..|b| - 1];
      LastRowOfConcat(a, b[..|b| - 1], key);
    }
  }

  /** Whatever is collected later, no stored key is ever lost. */
  lemma {:induction false} NoKeyIsLost(table: Table, before: seq<Attempt>, later: seq<Attempt>)
    ensures AfterAttempts(table, before).Keys <= AfterAttempts(table, before + later).Keys
  {
    hide AfterAttempts, LastRow;
    HistoryHoldsLastRows(table, before);
    HistoryHoldsLastRows(table, before + later);
    forall k | k in AfterAttempts(table, before)
      ensures k in AfterAttempts(table, before + later)
    {
      LastRowOfConcat(before, later, k);
    }
  }

  function Values(table: Table): map<Key, real> {
    map k | k in table :: table[k].value
  }

  /** Collecting the same observations again, at another time, changes no value. */
  lemma {:induction false} RerunChangesNoValue(table: Table, observations: seq<Observation>, now: int, again: int)
    ensures Values(Upserted(Upserted(table, observations, now), observations, again))
         == Values(Upserted(table, observations, now))
  {
    hide Upserted, LastValue;
    UpsertStoresLastValues(table, observations, now);
    UpsertStoresLastValues(Upserted(table, observations, now), observations, again);
  }

  function Succeeded(attempts: seq<Attempt>): seq<Attempt> {
    if attempts == [] then []
    else Succeeded(attempts[..|attempts| - 1])
         + (if attempts[|attempts| - 1].outcome.Ok? then [attempts[|attempts| - 1]] else [])
  }

  lemma {:induction false} AfterOneMore(table: Table, attempts: seq<Attempt>, last: Attempt)
    ensures AfterAttempts(table, attempts + [last]) == AfterAttempt(AfterAttempts(table, attempts), last)
  {
    hide AfterAttempt;
    assert (attempts + [last])[..|attempts|] == attempts;
  }

  /** A failing source costs the others nothing: the table is the one that the successful sources alone leave, and
      every source is counted once, as a success or as a failure. */
  lemma {:induction false} FailureCostsNothing(table: Table, attempts: seq<Attempt>)
    ensures AfterAttempts(table, attempts) == AfterAttempts(table, Succeeded(attempts))
    ensures |Failed(attempts)| + |Succeeded(attempts)| == |attempts|
  {
    if attempts != [] {
      var init, last := attempts[..|attempts| - 1], attempts[|attempts| - 1];
      assert last.outcome.Err? ==> AfterAttempt(AfterAttempts(table, init), last) == AfterAttempts(table, init);
      assert last.outcome.Ok? ==> Succeeded(attempts) == Succeeded(init) + [last];
      assert last.outcome.Err? ==> Succeeded(attempts) == Succeeded(init);
      hide AfterAttempt, Succeeded;
      FailureCostsNothing(table, init);
      AfterOneMore(table, Succeeded(init), last);
    } else {
      assert Succeeded(attempts) == [];
    }
  }
}
