/** The Markdown and CSV renderings, as the loops that build them. */
module ReportRendering {
  import opened OptionType
  import opened StableSorting
  import opened Sequences
  import opened Report
  import S = Statistics

  datatype Markdown =
    | NoRuns
    | Tables(header: seq<Cell>, rows: seq<seq<Cell>>, winners: seq<(string, Option<Winner>)>, ranking: seq<Standing>)

  function HeaderOf(drivers: seq<Driver>): (r: seq<Cell>)
    ensures |r| == 3 * |drivers|
  {
    if drivers == [] then []
    else
      var name := drivers[|drivers| - 1].name;
      HeaderOf(drivers[..|drivers| - 1]) + [Plain(name + " p50"), Plain(name + " p95"), Plain(name + " p99")]
  }

  // Columns 3d + 1 to 3d + 3 of the header are driver d's p50, p95 and p99, in front
  // of the same cells of each row.
  lemma HeaderAt(drivers: seq<Driver>, d: nat)
    requires d < |drivers|
    ensures var header := [Plain("Task")] + HeaderOf(drivers);
            && header[0] == Plain("Task")
            && header[3 * d + 1] == Plain(drivers[d].name + " p50")
            && header[3 * d + 2] == Plain(drivers[d].name + " p95")
            && header[3 * d + 3] == Plain(drivers[d].name + " p99")
  {
    HeaderCells(drivers, d);
  }

  lemma {:induction false} HeaderCells(drivers: seq<Driver>, d: nat)
    requires d < |drivers|
    ensures HeaderOf(drivers)[3 * d] == Plain(drivers[d].name + " p50")
    ensures HeaderOf(drivers)[3 * d + 1] == Plain(drivers[d].name + " p95")
    ensures HeaderOf(drivers)[3 * d + 2] == Plain(drivers[d].name + " p99")
  {
    if d < |drivers| - 1 { HeaderCells(drivers[..|drivers| - 1], d); }
  }

  // task_winners[tid]
  function FindWinner(winners: seq<Winner>, tid: string): Option<Winner> {
    if winners == [] then None
    else if winners[|winners| - 1].tid == tid then Some(winners[|winners| - 1])
    else FindWinner(winners[..|winners| - 1], tid)
  }

  lemma {:induction false} FindRecorded(drivers: seq<Driver>, ids: seq<string>, tid: string)
    ensures FindWinner(Winners(drivers, ids), tid) == if tid in ids then WinnerOf(drivers, tid) else None
  {
    if ids != [] {
      var n := |ids| - 1;
      FindRecorded(drivers, ids[..n], tid);
      var before, w := Winners(drivers, ids[..n]), WinnerOf(drivers, ids[n]);
      assert tid in ids <==> tid in ids[..n] || tid == ids[n] by {
        PrefixStep(ids, n);
        Units(ids);
      }
      if w.Some? {
        assert Winners(drivers, ids) == before + [w.value];
        Snoc(before, w.value);
      } else {
        Units(before);
        assert Winners(drivers, ids) == before;
      }
    }
  }

  method CountWins(winners: seq<Winner>, name: string) returns (n: nat)
    ensures n == Wins(winners, name)
  {
    n := 0;
    for i := 0 to |winners|
      invariant n == Wins(winners[..i], name)
    {
      PrefixStep(winners, i);
      if winners[i].driver == name { n := n + 1; }
    }
    Units(winners);
  }

  method AverageP50(d: Driver, ids: seq<string>) returns (average: Option<real>)
    ensures average == Average(d, ids)
  {
    var values: seq<real> := [];
    var total := 0.0;
    for i := 0 to |ids|
      invariant values == Counted(d, ids[..i]) && total == S.Sum(values)
    {
      PrefixStep(ids, i);
      Units(values);
      var p50 := P50(d, ids[i]);
      if p50.Some? {
        S.SumSnoc(values, p50.value);
        values, total := values + [p50.value], total + p50.value;
      }
    }
    Units(ids);
    average := if values != [] then Some(total / |values| as real) else None;
  }

  // The detail table, and task_winners filled on the way.
  method DetailRows(shown: seq<Driver>, ids: seq<string>) returns (rows: seq<seq<Cell>>, winners: seq<Winner>)
    ensures winners == Winners(shown, ids)
    ensures |rows| == |ids|
    ensures forall t :: 0 <= t < |ids| ==> rows[t] == DetailRow(shown, ids[t])
  {
    rows, winners := [], [];
    for t := 0 to |ids|
      invariant |rows| == t && winners == Winners(shown, ids[..t])
      invariant forall k :: 0 <= k < t ==> rows[k] == DetailRow(shown, ids[k])
    {
      PrefixStep(ids, t);
      Units(winners);
      var row, winner := BuildRow(shown, ids[t]);
      if winner.Some? {
        winners := winners + [winner.value];
      }
      rows := rows + [row];
    }
    Units(ids);
  }

  method WinnerRows(shown: seq<Driver>, ids: seq<string>, winners: seq<Winner>) returns (rows: seq<(string, Option<Winner>)>)
    requires winners == Winners(shown, ids)
    ensures |rows| == |ids|
    ensures forall t :: 0 <= t < |ids| ==> rows[t] == (DisplayName(shown, ids[t]), WinnerOf(shown, ids[t]))
  {
    rows := [];
    for t := 0 to |ids|
      invariant |rows| == t
      invariant forall k :: 0 <= k < t ==> rows[k] == (DisplayName(shown, ids[k]), WinnerOf(shown, ids[k]))
    {
      var taskName := FindDisplayName(shown, ids[t]);
      FindRecorded(shown, ids, ids[t]);
      rows := rows + [(taskName, FindWinner(winners, ids[t]))];
    }
  }

  method Rank(shown: seq<Driver>, ids: seq<string>, winners: seq<Winner>) returns (ranked: seq<Standing>)
    ensures ranked == Sort(NotBehind, Standings(shown, winners, ids))
  {
    var standings: seq<Standing> := [];
    for d := 0 to |shown|
      invariant |standings| == d
      invariant forall k :: 0 <= k < d ==> standings[k] == StandingOf(shown[k], winners, ids)
    {
      var wins := CountWins(winners, shown[d].name);
      var average := AverageP50(shown[d], ids);
      standings := standings + [Standing(shown[d].name, wins, average)];
    }
    assert standings == Standings(shown, winners, ids);
    ranked := Sort(NotBehind, standings);
  }

  method GenerateMarkdown(drivers: seq<Driver>) returns (md: Markdown)
    ensures md.NoRuns? <==> MarkdownDrivers(drivers) == []
    ensures md.Tables? ==>
              var shown := MarkdownDrivers(drivers);
              var ids := TaskIds(shown);
              && md.header == [Plain("Task")] + HeaderOf(shown)
              && |md.rows| == |md.winners| == |ids|
              && (forall t :: 0 <= t < |ids| ==>
                    md.rows[t] == DetailRow(shown, ids[t]) && |md.rows[t]| == |md.header|)
              && (forall t :: 0 <= t < |ids| ==>
                    md.winners[t] == (DisplayName(shown, ids[t]), WinnerOf(shown, ids[t])))
              && md.ranking == Ranking(shown)
  {
    var shown := MarkdownDrivers(drivers);
    if shown == [] {
      return NoRuns;
    }
    var ids := CollectTaskIds(shown);
    var header := [Plain("Task")] + HeaderOf(shown);
    var rows, taskWinners := DetailRows(shown, ids);
    var winnerRows := WinnerRows(shown, ids, taskWinners);
    var ranked := Rank(shown, ids, taskWinners);
    md := Tables(header, rows, winnerRows, ranked);
  }

  // ---- CSV ----

  const EMPTY_FIGURES := Figures(Missing, Missing, Missing, Missing, Missing, Missing)

  datatype CsvRow = CsvRow(task: string, driver: string, figures: Figures, rate: real)

  function CsvRowOf(d: Driver, tid: string): CsvRow {
    var e := Entry(d, tid);
    CsvRow(tid, d.name, if e.stats.Some? then e.stats.value else EMPTY_FIGURES, e.rate)
  }

  function CsvBlock(shown: seq<Driver>, tid: string): (r: seq<CsvRow>)
    ensures |r| == |shown| && forall d :: 0 <= d < |shown| ==> r[d] == CsvRowOf(shown[d], tid)
  {
    seq(|shown|, d requires 0 <= d < |shown| => CsvRowOf(shown[d], tid))
  }

  // The lines below the header.
  function CsvTable(shown: seq<Driver>, ids: seq<string>): seq<CsvRow> {
    if ids == [] then [] else CsvTable(shown, ids[..|ids| - 1]) + CsvBlock(shown, ids[|ids| - 1])
  }

  method GenerateCsv(drivers: seq<Driver>) returns (rows: seq<CsvRow>)
    ensures rows == CsvTable(CsvDrivers(drivers), TaskIds(CsvDrivers(drivers)))
  {
    var shown := CsvDrivers(drivers);
    var ids := CollectTaskIds(shown);
    rows := [];
    for t := 0 to |ids|
      invariant rows == CsvTable(shown, ids[..t])
    {
      ghost var before, block := rows, CsvBlock(shown, ids[t]);
      Units(before);
      for d := 0 to |shown|
        invariant rows == before + block[..d]
      {
        PrefixStep(block, d);
        Associative(before, block[..d], [block[d]]);
        rows := rows + [CsvRowOf(shown[d], ids[t])];
      }
      Units(block);
      PrefixStep(ids, t);
    }
    Units(ids);
  }

  lemma NextBlock(m: nat, n: nat)
    ensures (m + 1) * n == m * n + n
  {
  }

  lemma EarlierBlock(t: nat, m: nat, n: nat, d: nat)
    requires t < m && d < n
    ensures t * n + d < m * n
  {
    assert (t + 1) * n <= m * n;
    NextBlock(t, n);
  }

  lemma {:induction false} CsvSize(shown: seq<Driver>, ids: seq<string>)
    ensures |CsvTable(shown, ids)| == |ids| * |shown|
  {
    if ids != [] {
      CsvSize(shown, ids[..|ids| - 1]);
      NextBlock(|ids| - 1, |shown|);
    }
  }

  // One line for every task and driver, task by task, drivers in order.
  lemma {:induction false} CsvGrid(shown: seq<Driver>, ids: seq<string>, t: nat, d: nat)
    requires t < |ids| && d < |shown|
    ensures t * |shown| + d < |CsvTable(shown, ids)| == |ids| * |shown|
    ensures CsvTable(shown, ids)[t * |shown| + d] == CsvRowOf(shown[d], ids[t])
  {
    var n, m := |shown|, |ids| - 1;
    CsvSize(shown, ids);
    CsvSize(shown, ids[..m]);
    EarlierBlock(t, m + 1, n, d);
    if t < m {
      EarlierBlock(t, m, n, d);
      CsvGrid(shown, ids[..m], t, d);
      InFirst(CsvTable(shown, ids[..m]), CsvBlock(shown, ids[m]), t * n + d);
    } else {
      InSecond(CsvTable(shown, ids[..m]), CsvBlock(shown, ids[m]), d);
    }
  }

  lemma InFirst(a: seq<CsvRow>, b: seq<CsvRow>, i: nat)
    requires i < |a|
    ensures (a + b)[i] == a[i]
  {
  }

  lemma InSecond(a: seq<CsvRow>, b: seq<CsvRow>, i: nat)
    requires i < |b|
    ensures (a + b)[|a| + i] == b[i]
  {
  }

  // Both renderings of one dictionary: one duplicate-free task list, CSV drivers
  // among the Markdown drivers in the same order, and full tables.
  lemma RenderingsAgree(drivers: seq<Driver>)
    ensures var ids := TaskIds(MarkdownDrivers(drivers));
            && ids == TaskIds(CsvDrivers(drivers))
            && (forall i, j :: 0 <= i < j < |ids| ==> ids[i] != ids[j])
            && |CsvTable(CsvDrivers(drivers), ids)| == |ids| * |CsvDrivers(drivers)|
    ensures Subsequence(CsvDrivers(drivers), MarkdownDrivers(drivers))
  {
    SameTasksListed(drivers);
    CsvSize(CsvDrivers(drivers), TaskIds(CsvDrivers(drivers)));
  }
}

/** What run.py stores for a task and how the report shows it. */
module RunToReport {
  import opened OptionType
  import opened Statistics
  import opened Report
  import opened ReportRendering
  import TaskRunner

  function OkDurations(results: seq<TaskRunner.Entry>): seq<real> {
    if results == [] then []
    else (if results[0].success then [results[0].durationMs] else []) + OkDurations(results[1..])
  }

  function SuccessRate(results: seq<TaskRunner.Entry>): real {
    if results == [] then 0.0 else |OkDurations(results)| as real / |results| as real
  }

  function ToFigures(st: Stats): Figures {
    Figures(Number(st.p50), Number(st.p95), Number(st.p99), Number(st.mean), Number(st.min), Number(st.max))
  }

  // The dictionary main() writes for a task.
  function StoredEntry(name: string, results: seq<TaskRunner.Entry>): TaskEntry {
    var stats := ComputeStats(OkDurations(results));
    TaskEntry(Some(name), if stats.Some? then Some(ToFigures(stats.value)) else None, Round3(SuccessRate(results)))
  }

  ghost predicate AnySuccess(results: seq<TaskRunner.Entry>) {
    exists i :: 0 <= i < |results| && results[i].success
  }

  lemma {:induction false} OkDurationsCount(results: seq<TaskRunner.Entry>)
    ensures |OkDurations(results)| <= |results|
    ensures OkDurations(results) != [] <==> AnySuccess(results)
    ensures |OkDurations(results)| == |results| <==> forall i :: 0 <= i < |results| ==> results[i].success
  {
    if results != [] {
      var rest := results[1..];
      OkDurationsCount(rest);
      assert forall i :: 0 <= i < |rest| ==> rest[i] == results[i + 1];
      if AnySuccess(rest) {
        var i :| 0 <= i < |rest| && rest[i].success;
        assert results[i + 1].success;
      }
    }
  }

  // The successes among the first n results.
  ghost function Successes(results: seq<TaskRunner.Entry>, n: nat): nat
    requires n <= |results|
  {
    if n == 0 then 0 else Successes(results, n - 1) + if results[n - 1].success then 1 else 0
  }

  lemma {:induction false} SuccessesTail(results: seq<TaskRunner.Entry>, n: nat)
    requires 0 < n <= |results|
    ensures Successes(results, n) == Successes(results[1..], n - 1) + if results[0].success then 1 else 0
  {
    if n > 1 { SuccessesTail(results, n - 1); }
  }

  // The durations kept are those of the successes, each in its place.
  lemma {:induction false} OkDurationsExactly(results: seq<TaskRunner.Entry>)
    ensures |OkDurations(results)| == Successes(results, |results|)
    ensures forall i :: 0 <= i < |results| && results[i].success ==>
              Successes(results, i) < |OkDurations(results)| &&
              OkDurations(results)[Successes(results, i)] == results[i].durationMs
  {
    if results != [] {
      var rest := results[1..];
      OkDurationsExactly(rest);
      SuccessesTail(results, |results|);
      forall i | 0 <= i < |results| && results[i].success
        ensures Successes(results, i) < |OkDurations(results)| &&
                OkDurations(results)[Successes(results, i)] == results[i].durationMs
      {
        if i > 0 {
          SuccessesTail(results, i);
          assert rest[i - 1] == results[i];
        }
      }
    }
  }

  // The stored rate is the number of successes over that of results, rounded.
  lemma RateExactly(name: string, results: seq<TaskRunner.Entry>)
    ensures StoredEntry(name, results).rate ==
            if results == [] then 0.0 else Round3(Successes(results, |results|) as real / |results| as real)
  {
    OkDurationsExactly(results);
    Thousandths();
  }

  // d's entry for tid is what run.py stored for `results`, or d never ran tid.
  ghost predicate Ran(d: Driver, tid: string, name: string, results: seq<TaskRunner.Entry>) {
    Entry(d, tid) == StoredEntry(name, results)
  }

  lemma Thousandths()
    ensures Round3(0.0) == 0.0 && Round3(1.0) == 1.0
  {
    assert (0.0 * 1000.0).Floor == 0;
    assert (1.0 * 1000.0).Floor == 1000;
  }

  lemma StoredNothing(name: string, results: seq<TaskRunner.Entry>)
    requires !AnySuccess(results)
    ensures StoredEntry(name, results) == TaskEntry(Some(name), None, 0.0)
  {
    OkDurationsCount(results);
    Thousandths();
    assert results != [] ==> 0.0 / |results| as real == 0.0;
  }

  // A cell reads FAIL exactly when no iteration succeeded, and then shows 0%;
  // otherwise it shows the rounded percentiles of the successful ones.
  lemma FailExactly(d: Driver, tid: string, name: string, results: seq<TaskRunner.Entry>)
    requires Ran(d, tid, name, results)
    ensures DriverCells(d, tid)[0] == Fail <==> !AnySuccess(results)
    ensures !AnySuccess(results) ==> DriverCells(d, tid) == [Fail, Fail, Percent(0.0)]
    ensures AnySuccess(results) ==>
              && P50(d, tid).Some?
              && DriverCells(d, tid) == [Num(Round3(Percentile(OkDurations(results), 50.0))),
                                         Num(Round3(Percentile(OkDurations(results), 95.0))),
                                         Num(Round3(Percentile(OkDurations(results), 99.0)))]
  {
    OkDurationsCount(results);
    if AnySuccess(results) {
      StatsReport(OkDurations(results));
    } else {
      StoredNothing(name, results);
    }
  }

  // The name shown for a task is that of the first driver that ran it.
  lemma NameShown(drivers: seq<Driver>, k: nat, tid: string, name: string, results: seq<TaskRunner.Entry>)
    requires k < |drivers| && Ran(drivers[k], tid, name, results) && name != ""
    requires forall j :: 0 <= j < k ==> Entry(drivers[j], tid) == ABSENT
    ensures DetailRow(drivers, tid)[0] == Plain(name)
  {
    DisplayNameIsFirst(drivers, tid, k);
  }

  // Each CSV column shows its own figure, or nothing when no iteration succeeded.
  lemma CsvShowsStats(d: Driver, tid: string, name: string, results: seq<TaskRunner.Entry>)
    requires Ran(d, tid, name, results)
    ensures var row, st := CsvRowOf(d, tid), ComputeStats(OkDurations(results));
            && row.task == tid && row.driver == d.name && row.rate == StoredEntry(name, results).rate
            && (st.Some? <==> AnySuccess(results))
            && (st.Some? ==>
                  && row.figures.p50 == Number(st.value.p50) && row.figures.p95 == Number(st.value.p95)
                  && row.figures.p99 == Number(st.value.p99) && row.figures.mean == Number(st.value.mean)
                  && row.figures.min == Number(st.value.min) && row.figures.max == Number(st.value.max))
            && (st.None? ==>
                  && row.figures.p50 == Missing && row.figures.p95 == Missing && row.figures.p99 == Missing
                  && row.figures.mean == Missing && row.figures.min == Missing && row.figures.max == Missing)
  {
    OkDurationsCount(results);
  }

  lemma NotRunFails(d: Driver, tid: string)
    requires tid !in TaskNames(d.tasks)
    ensures DriverCells(d, tid) == [Fail, Fail, Percent(0.0)]
  {
    if Find(d.tasks, tid) != ABSENT {
      FoundIsNamed(d.tasks, tid);
    }
  }

  // The stored rate is a rate; it is 1 when every iteration succeeded.
  lemma RateInRange(name: string, results: seq<TaskRunner.Entry>)
    ensures 0.0 <= StoredEntry(name, results).rate <= 1.0
    ensures results != [] && (forall i :: 0 <= i < |results| ==> results[i].success) ==> StoredEntry(name, results).rate == 1.0
  {
    OkDurationsCount(results);
    Thousandths();
    if results != [] {
      RatioInRange(|OkDurations(results)|, |results|);
    }
    Round3Monotone(0.0, SuccessRate(results));
    Round3Monotone(SuccessRate(results), 1.0);
  }

  lemma RatioInRange(k: nat, n: nat)
    requires k <= n && n > 0
    ensures 0.0 <= k as real / n as real <= 1.0
    ensures k == n ==> k as real / n as real == 1.0
  {
    DivMonotone(0.0, k as real, n as real);
    DivMonotone(k as real, n as real, n as real);
  }

  // ---- from measured durations to the ranking ----

  // What run.py recorded for a driver, task by task.
  type Runs = map<string, seq<TaskRunner.Entry>>

  ghost predicate StoresTask(d: Driver, runs: Runs, tid: string) {
    if tid in runs then exists name :: Ran(d, tid, name, runs[tid]) else Entry(d, tid) == ABSENT
  }

  ghost predicate Stores(d: Driver, runs: Runs) {
    forall tid :: StoresTask(d, runs, tid)
  }

  // Same tasks, as many successful samples of each, and position by position a's
  // are at least d faster.
  ghost predicate SamplesFaster(a: Runs, b: Runs, d: real) {
    a.Keys == b.Keys && forall tid :: tid in a ==> Ahead(OkDurations(a[tid]), OkDurations(b[tid]), d)
  }

  ghost predicate Ahead(s: seq<real>, t: seq<real>, d: real) {
    |s| == |t| && forall i :: 0 <= i < |s| ==> s[i] + d <= t[i]
  }

  lemma StoredP50(d: Driver, runs: Runs, tid: string)
    requires Stores(d, runs)
    ensures P50(d, tid).Some? <==> tid in runs && OkDurations(runs[tid]) != []
    ensures P50(d, tid).Some? ==> P50(d, tid).value == Round3(Percentile(OkDurations(runs[tid]), 50.0))
  {
    assert StoresTask(d, runs, tid);
    if tid in runs {
      var name :| Ran(d, tid, name, runs[tid]);
      FailExactly(d, tid, name, runs[tid]);
      OkDurationsCount(runs[tid]);
    }
  }

  lemma SamplesFasterMeansFaster(a: Driver, b: Driver, ra: Runs, rb: Runs, d: real)
    requires Stores(a, ra) && Stores(b, rb) && SamplesFaster(ra, rb, d) && d > 0.001
    ensures Faster(a, b)
  {
    forall tid ensures P50(a, tid).Some? <==> P50(b, tid).Some? {
      StoredP50(a, ra, tid);
      StoredP50(b, rb, tid);
    }
    forall tid | P50(a, tid).Some? && P50(b, tid).Some? ensures P50(a, tid).value < P50(b, tid).value {
      StoredP50(a, ra, tid);
      StoredP50(b, rb, tid);
      var s, t := OkDurations(ra[tid]), OkDurations(rb[tid]);
      PercentileApart(s, t, d, 50.0);
      Round3Strict(Percentile(s, 50.0), Percentile(t, 50.0));
    }
  }

  // End to end: in the report of a results dictionary a driver whose successful
  // samples are all faster by more than a thousandth of a millisecond ranks strictly
  // above the other, whatever the rest did.
  lemma FasterSamplesRankAbove(drivers: seq<Driver>, a: nat, b: nat, ra: Runs, rb: Runs, d: real, tid: string)
    requires DistinctNames(drivers) && a < |drivers| && b < |drivers|
    requires Stores(drivers[a], ra) && Stores(drivers[b], rb) && SamplesFaster(ra, rb, d) && d > 0.001
    requires tid in ra && AnySuccess(ra[tid])
    ensures RanksAbove(MarkdownDrivers(drivers), drivers[a].name, drivers[b].name)
  {
    SamplesFasterMeansFaster(drivers[a], drivers[b], ra, rb, d);
    StoredP50(drivers[a], ra, tid);
    OkDurationsCount(ra[tid]);
    FasterRanksAboveInReport(drivers, a, b, tid);
  }
}
