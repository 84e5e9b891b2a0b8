/**
  The benchmark report: task list, per-task winners, win counts, ranking, and the
  Markdown and CSV renderings of one results dictionary.
 */
module Report {
  import opened OptionType
  import opened StableSorting
  import opened Sequences
  import S = Statistics

  // A value found under a statistics key: numbers take part in comparisons,
  // anything else is only printed.
  datatype Field = Missing | Number(r: real) | Text(s: string)

  // None for an absent or empty statistics dictionary.
  datatype Figures = Figures(p50: Field, p95: Field, p99: Field, mean: Field, min: Field, max: Field)

  datatype TaskEntry = TaskEntry(name: Option<string>, stats: Option<Figures>, rate: real)

  // A dictionary entry of "drivers"; tasks keeps the order of the JSON object.
  datatype Driver = Driver(name: string, failed: bool, tasks: seq<(string, TaskEntry)>)

  // What .get(tid, {}) falls back to.
  const ABSENT := TaskEntry(None, None, 0.0)

  // JSON objects have no duplicate keys.
  ghost predicate DistinctNames(drivers: seq<Driver>) {
    forall i, j :: 0 <= i < j < |drivers| ==> drivers[i].name != drivers[j].name
  }

  function Find(tasks: seq<(string, TaskEntry)>, tid: string): TaskEntry {
    if tasks == [] then ABSENT
    else if tasks[0].0 == tid then tasks[0].1
    else Find(tasks[1..], tid)
  }

  // A JSON object's keys.
  ghost predicate DistinctKeys(tasks: seq<(string, TaskEntry)>) {
    forall i, j :: 0 <= i < j < |tasks| ==> tasks[i].0 != tasks[j].0
  }

  // Looking up a key gives its own entry, looking up any other an empty one.
  lemma {:induction false} FindExactly(tasks: seq<(string, TaskEntry)>, tid: string)
    requires DistinctKeys(tasks)
    ensures forall i :: 0 <= i < |tasks| && tasks[i].0 == tid ==> Find(tasks, tid) == tasks[i].1
    ensures (forall i :: 0 <= i < |tasks| ==> tasks[i].0 != tid) ==> Find(tasks, tid) == TaskEntry(None, None, 0.0)
  {
    if tasks != [] { FindExactly(tasks[1..], tid); }
  }

  function Entry(d: Driver, tid: string): TaskEntry {
    Find(d.tasks, tid)
  }

  // The p50 that takes part in comparisons.
  function P50(d: Driver, tid: string): Option<real> {
    var e := Entry(d, tid);
    if e.stats.Some? && e.stats.value.p50.Number? then Some(e.stats.value.p50.r) else None
  }

  // ---- drivers and tasks shown ----

  function MarkdownDrivers(drivers: seq<Driver>): seq<Driver> {
    if drivers == [] then []
    else (if !drivers[0].failed || drivers[0].tasks != [] then [drivers[0]] else []) + MarkdownDrivers(drivers[1..])
  }

  function CsvDrivers(drivers: seq<Driver>): seq<Driver> {
    if drivers == [] then []
    else (if drivers[0].tasks != [] then [drivers[0]] else []) + CsvDrivers(drivers[1..])
  }

  // A driver is shown in Markdown unless it failed without any task, in CSV when it
  // has tasks; both keep the order of the dictionary.
  lemma {:induction false} ShownExactly(drivers: seq<Driver>, d: Driver)
    ensures d in MarkdownDrivers(drivers) <==> d in drivers && (!d.failed || d.tasks != [])
    ensures d in CsvDrivers(drivers) <==> d in drivers && d.tasks != []
  {
    if drivers != [] {
      ShownExactly(drivers[1..], d);
      HeadTail(drivers);
    }
  }

  lemma {:induction false} ShownInOrder(drivers: seq<Driver>)
    ensures Subsequence(MarkdownDrivers(drivers), drivers)
    ensures Subsequence(CsvDrivers(drivers), drivers)
  {
    if drivers != [] {
      ShownInOrder(drivers[1..]);
      var c, m := CsvDrivers(drivers[1..]), MarkdownDrivers(drivers[1..]);
      ConsTail(drivers[0], c);
      ConsTail(drivers[0], m);
      Units(c);
      Units(m);
    }
  }

  function TaskNames(tasks: seq<(string, TaskEntry)>): (r: seq<string>)
    ensures |r| == |tasks| && forall i :: 0 <= i < |tasks| ==> r[i] == tasks[i].0
  {
    seq(|tasks|, i requires 0 <= i < |tasks| => tasks[i].0)
  }

  // Every task id of every driver, in reading order, with repetitions.
  function Mentions(drivers: seq<Driver>): seq<string> {
    if drivers == [] then [] else Mentions(drivers[..|drivers| - 1]) + TaskNames(drivers[|drivers| - 1].tasks)
  }

  function Distinct(s: seq<string>): seq<string> {
    if s == [] then []
    else
      var rest := Distinct(s[..|s| - 1]);
      if s[|s| - 1] in rest then rest else rest + [s[|s| - 1]]
  }

  // The tasks a report lists.
  function TaskIds(drivers: seq<Driver>): seq<string> {
    Distinct(Mentions(drivers))
  }

  // k is where x first occurs in s.
  ghost predicate FirstAt(s: seq<string>, x: string, k: nat) {
    k < |s| && s[k] == x && x !in s[..k]
  }

  // Distinct keeps each element once, in the order of first occurrences.
  lemma {:induction false} DistinctIsFirstSeen(s: seq<string>)
    ensures forall x :: x in Distinct(s) <==> x in s
    ensures forall i, j :: 0 <= i < j < |Distinct(s)| ==> Distinct(s)[i] != Distinct(s)[j]
    ensures forall i, j, k, l :: 0 <= i < j < |Distinct(s)| && FirstAt(s, Distinct(s)[i], k) && FirstAt(s, Distinct(s)[j], l) ==> k < l
  {
    if s != [] {
      var t, x := s[..|s| - 1], s[|s| - 1];
      DistinctIsFirstSeen(t);
      assert s == t + [x];
      forall y, k: nat | FirstAt(s, y, k) ensures y in t ==> FirstAt(t, y, k)
      {
        assert s[..k] == t[..k] || k == |t|;
        if k < |t| { assert t[..k] == s[..k]; } else { assert s[..k] == t; }
      }
    }
  }

  // One task id looked at: appended unless seen.
  lemma DistinctStep(before: seq<string>, names: seq<string>, t: nat)
    requires t < |names|
    ensures var ids := Distinct(before + names[..t]);
            Distinct(before + names[..t + 1]) == if names[t] in ids then ids else ids + [names[t]]
  {
    PrefixStep(names, t);
    Associative(before, names[..t], [names[t]]);
    Snoc(before + names[..t], names[t]);
  }

  ghost predicate SameElements(ids: seq<string>, seen: set<string>) {
    forall x :: x in ids <==> x in seen
  }

  // The nested loops with the `seen` set.
  method CollectTaskIds(drivers: seq<Driver>) returns (ids: seq<string>)
    ensures ids == TaskIds(drivers)
  {
    ids := [];
    var seen: set<string> := {};
    for d := 0 to |drivers|
      invariant ids == TaskIds(drivers[..d]) && SameElements(ids, seen)
    {
      var tasks := drivers[d].tasks;
      ghost var before, names := Mentions(drivers[..d]), TaskNames(tasks);
      Units(before);
      for t := 0 to |tasks|
        invariant ids == Distinct(before + names[..t]) && SameElements(ids, seen)
      {
        DistinctStep(before, names, t);
        var tid := tasks[t].0;
        if tid !in seen {
          ids := ids + [tid];
          seen := seen + {tid};
        }
      }
      Units(names);
      PrefixStep(drivers, d);
    }
    Units(drivers);
  }

  // ---- both renderings list the same tasks ----

  lemma {:induction false} MentionsAppend(a: seq<Driver>, b: seq<Driver>)
    ensures Mentions(a + b) == Mentions(a) + Mentions(b)
  {
    if b == [] {
      Units(a);
      Units(Mentions(a));
    } else {
      FrontOfAppend(a, b);
      MentionsAppend(a, b[..|b| - 1]);
      Associative(Mentions(a), Mentions(b[..|b| - 1]), TaskNames(b[|b| - 1].tasks));
    }
  }

  lemma MentionsOne(d: Driver)
    ensures Mentions([d]) == TaskNames(d.tasks)
  {
    assert [d][..0] == [];
    Units(TaskNames(d.tasks));
  }

  lemma {:induction false} SameMentions(drivers: seq<Driver>)
    ensures Mentions(MarkdownDrivers(drivers)) == Mentions(CsvDrivers(drivers))
  {
    if drivers != [] {
      var d, rest := drivers[0], drivers[1..];
      SameMentions(rest);
      Units(CsvDrivers(rest));
      Units(MarkdownDrivers(rest));
      MentionsAppend([d], MarkdownDrivers(rest));
      MentionsAppend([d], CsvDrivers(rest));
      MentionsOne(d);
      Units(Mentions(MarkdownDrivers(rest)));
    }
  }

  ghost predicate Subsequence<T(!new)>(a: seq<T>, b: seq<T>) {
    a == [] || (b != [] && ((a[0] == b[0] && Subsequence(a[1..], b[1..])) || Subsequence(a, b[1..])))
  }

  lemma {:induction false} CsvWithinMarkdown(drivers: seq<Driver>)
    ensures Subsequence(CsvDrivers(drivers), MarkdownDrivers(drivers))
  {
    if drivers != [] {
      CsvWithinMarkdown(drivers[1..]);
      var c, m := CsvDrivers(drivers[1..]), MarkdownDrivers(drivers[1..]);
      ConsTail(drivers[0], c);
      ConsTail(drivers[0], m);
      Units(c);
      Units(m);
    }
  }

  // Markdown and CSV enumerate one duplicate-free task list, in one order.
  lemma SameTasksListed(drivers: seq<Driver>)
    ensures TaskIds(MarkdownDrivers(drivers)) == TaskIds(CsvDrivers(drivers))
    ensures var ids := TaskIds(MarkdownDrivers(drivers));
            forall i, j :: 0 <= i < j < |ids| ==> ids[i] != ids[j]
    ensures Subsequence(CsvDrivers(drivers), MarkdownDrivers(drivers))
  {
    SameMentions(drivers);
    DistinctIsFirstSeen(Mentions(MarkdownDrivers(drivers)));
    CsvWithinMarkdown(drivers);
  }

  // ---- winners ----

  // Driver k is the first to attain the least p50 of the task.
  ghost predicate FirstLeast(drivers: seq<Driver>, tid: string, k: nat) {
    && k < |drivers| && P50(drivers[k], tid).Some?
    && forall j :: 0 <= j < |drivers| && P50(drivers[j], tid).Some? ==>
         if j < k then P50(drivers[j], tid).value > P50(drivers[k], tid).value
         else P50(drivers[j], tid).value >= P50(drivers[k], tid).value
  }

  ghost predicate Measured(drivers: seq<Driver>, tid: string) {
    exists k :: 0 <= k < |drivers| && P50(drivers[k], tid).Some?
  }

  // The index the inner loop ends with, if any p50 was below infinity.
  function Best(drivers: seq<Driver>, tid: string): (r: Option<nat>)
    ensures r.Some? ==> r.value < |drivers| && P50(drivers[r.value], tid).Some?
  {
    if drivers == [] then None
    else
      var last, rest := |drivers| - 1, drivers[..|drivers| - 1];
      var best := Best(rest, tid);
      var p := P50(drivers[last], tid);
      if p.Some? && (best.None? || p.value < P50(drivers[best.value], tid).value) then Some(last) else best
  }

  lemma {:induction false} BestIsFirstLeast(drivers: seq<Driver>, tid: string)
    ensures Best(drivers, tid).Some? <==> Measured(drivers, tid)
    ensures forall k: nat :: Best(drivers, tid) == Some(k) <==> FirstLeast(drivers, tid, k)
  {
    if drivers != [] {
      var n := |drivers| - 1;
      BestIsFirstLeast(drivers[..n], tid);
      if Best(drivers, tid).Some? {
        assert FirstLeast(drivers, tid, Best(drivers, tid).value);
      }
    }
  }

  datatype Winner = Winner(tid: string, driver: string, p50: real)

  // task_winners, in insertion order. A driver named "" is falsy and not recorded.
  function WinnerOf(drivers: seq<Driver>, tid: string): Option<Winner> {
    var best := Best(drivers, tid);
    if best.Some? && drivers[best.value].name != "" then
      Some(Winner(tid, drivers[best.value].name, P50(drivers[best.value], tid).value))
    else None
  }

  function Winners(drivers: seq<Driver>, ids: seq<string>): seq<Winner> {
    if ids == [] then []
    else
      var w := WinnerOf(drivers, ids[|ids| - 1]);
      Winners(drivers, ids[..|ids| - 1]) + if w.Some? then [w.value] else []
  }

  // ---- the detail table ----

  datatype Cell = Plain(s: string) | Num(r: real) | Dash | Fail | Percent(r: real)

  function Show(f: Field): Cell {
    match f
    case Missing => Dash
    case Number(r) => Num(r)
    case Text(s) => Plain(s)
  }

  function DriverCells(d: Driver, tid: string): (r: seq<Cell>)
    ensures |r| == 3
  {
    var e := Entry(d, tid);
    if e.stats.Some? then [Show(e.stats.value.p50), Show(e.stats.value.p95), Show(e.stats.value.p99)]
    else [Fail, Fail, Percent(e.rate)]
  }

  // The first nonempty display name, else the task id.
  function DisplayName(drivers: seq<Driver>, tid: string): string {
    if drivers == [] then tid
    else if Entry(drivers[0], tid).name.Some? && Entry(drivers[0], tid).name.value != "" then
      Entry(drivers[0], tid).name.value
    else DisplayName(drivers[1..], tid)
  }

  function Row(drivers: seq<Driver>, tid: string): (r: seq<Cell>)
    ensures |r| == 3 * |drivers|
  {
    if drivers == [] then [] else Row(drivers[..|drivers| - 1], tid) + DriverCells(drivers[|drivers| - 1], tid)
  }

  // A line of the detail table.
  function DetailRow(drivers: seq<Driver>, tid: string): (r: seq<Cell>)
    ensures |r| == 1 + 3 * |drivers|
  {
    [Plain(DisplayName(drivers, tid))] + Row(drivers, tid)
  }

  ghost predicate HasName(d: Driver, tid: string) {
    Entry(d, tid).name.Some? && Entry(d, tid).name.value != ""
  }

  // Driver k is the first to name the task.
  lemma {:induction false} DisplayNameIsFirst(drivers: seq<Driver>, tid: string, k: nat)
    requires k < |drivers| && HasName(drivers[k], tid) && forall j :: 0 <= j < k ==> !HasName(drivers[j], tid)
    ensures DisplayName(drivers, tid) == Entry(drivers[k], tid).name.value
  {
    if k > 0 {
      assert forall j :: 0 <= j < k - 1 ==> drivers[1..][j] == drivers[j + 1];
      DisplayNameIsFirst(drivers[1..], tid, k - 1);
    }
  }

  lemma {:induction false} DisplayNameIsId(drivers: seq<Driver>, tid: string)
    requires forall j :: 0 <= j < |drivers| ==> !HasName(drivers[j], tid)
    ensures DisplayName(drivers, tid) == tid
  {
    if drivers != [] { DisplayNameIsId(drivers[1..], tid); }
  }

  // What stands in a cell: a number as it is, other values printed, a dash for none.
  ghost predicate Shows(c: Cell, f: Field) {
    match f
    case Number(r) => c == Num(r)
    case Text(t) => c == Plain(t)
    case Missing => c == Dash
  }

  // Cells 3d + 1 to 3d + 3 of a row are driver d's.
  lemma RowAt(drivers: seq<Driver>, tid: string, d: nat)
    requires d < |drivers|
    ensures var row, e := DetailRow(drivers, tid), Entry(drivers[d], tid);
            if e.stats.None? then row[3 * d + 1] == Fail && row[3 * d + 2] == Fail && row[3 * d + 3] == Percent(e.rate)
            else
              && Shows(row[3 * d + 1], e.stats.value.p50)
              && Shows(row[3 * d + 2], e.stats.value.p95)
              && Shows(row[3 * d + 3], e.stats.value.p99)
  {
    RowCells(drivers, tid, d);
  }

  lemma {:induction false} RowCells(drivers: seq<Driver>, tid: string, d: nat)
    requires d < |drivers|
    ensures Row(drivers, tid)[3 * d] == DriverCells(drivers[d], tid)[0]
    ensures Row(drivers, tid)[3 * d + 1] == DriverCells(drivers[d], tid)[1]
    ensures Row(drivers, tid)[3 * d + 2] == DriverCells(drivers[d], tid)[2]
  {
    if d < |drivers| - 1 { RowCells(drivers[..|drivers| - 1], tid, d); }
  }

  method FindDisplayName(drivers: seq<Driver>, tid: string) returns (name: string)
    ensures name == DisplayName(drivers, tid)
  {
    for d := 0 to |drivers|
      invariant DisplayName(drivers[d..], tid) == DisplayName(drivers, tid)
    {
      var e := Entry(drivers[d], tid);
      if e.name.Some? && e.name.value != "" {
        return e.name.value;
      }
    }
    return tid;
  }

  // One row of the detail table, and the winner found on the way.
  method BuildRow(drivers: seq<Driver>, tid: string) returns (row: seq<Cell>, winner: Option<Winner>)
    ensures row == DetailRow(drivers, tid)
    ensures winner == WinnerOf(drivers, tid)
  {
    var taskName := FindDisplayName(drivers, tid);
    row := [Plain(taskName)];
    Units(row);
    var bestP50: Option<real> := None;   // None is float("inf")
    var bestDriver: Option<string> := None;
    for d := 0 to |drivers|
      invariant row == [Plain(taskName)] + Row(drivers[..d], tid)
      invariant var best := Best(drivers[..d], tid);
                if best.None? then bestP50 == None && bestDriver == None
                else bestP50 == P50(drivers[best.value], tid) && bestDriver == Some(drivers[best.value].name)
    {
      PrefixStep(drivers, d);
      Associative([Plain(taskName)], Row(drivers[..d], tid), DriverCells(drivers[d], tid));
      var e := Entry(drivers[d], tid);
      row := row + DriverCells(drivers[d], tid);
      if e.stats.Some? {
        var p50 := e.stats.value.p50;
        if p50.Number? && (bestP50.None? || p50.r < bestP50.value) {
          bestP50, bestDriver := Some(p50.r), Some(drivers[d].name);
        }
      }
    }
    Units(drivers);
    winner := None;
    if bestDriver.Some? && bestDriver.value != "" {
      winner := Some(Winner(tid, bestDriver.value, bestP50.value));
    }
  }

  // ---- wins and averages ----

  function Wins(winners: seq<Winner>, name: string): nat {
    if winners == [] then 0
    else Wins(winners[..|winners| - 1], name) + if winners[|winners| - 1].driver == name then 1 else 0
  }

  function TotalWins(winners: seq<Winner>, drivers: seq<Driver>): nat {
    if drivers == [] then 0
    else TotalWins(winners, drivers[..|drivers| - 1]) + Wins(winners, drivers[|drivers| - 1].name)
  }

  // The p50s that enter a driver's average.
  function Counted(d: Driver, ids: seq<string>): seq<real> {
    if ids == [] then []
    else Counted(d, ids[..|ids| - 1]) + if P50(d, ids[|ids| - 1]).Some? then [P50(d, ids[|ids| - 1]).value] else []
  }

  // None is float("inf").
  function Average(d: Driver, ids: seq<string>): Option<real> {
    var s := Counted(d, ids);
    if s == [] then None else Some(S.Sum(s) / |s| as real)
  }

  // How many of the tasks have a p50, and what these add up to.
  ghost function P50Count(d: Driver, ids: seq<string>): nat {
    if ids == [] then 0 else (if P50(d, ids[0]).Some? then 1 else 0) + P50Count(d, ids[1..])
  }

  ghost function P50Total(d: Driver, ids: seq<string>): real {
    if ids == [] then 0.0 else (if P50(d, ids[0]).Some? then P50(d, ids[0]).value else 0.0) + P50Total(d, ids[1..])
  }

  lemma {:induction false} P50Snoc(d: Driver, ids: seq<string>, tid: string)
    ensures P50Count(d, ids + [tid]) == P50Count(d, ids) + if P50(d, tid).Some? then 1 else 0
    ensures P50Total(d, ids + [tid]) == P50Total(d, ids) + if P50(d, tid).Some? then P50(d, tid).value else 0.0
  {
    if ids == [] {
      assert [tid][1..] == [] && [] + [tid] == [tid];
    } else {
      TailOfAppend(ids, [tid]);
      P50Snoc(d, ids[1..], tid);
    }
  }

  lemma {:induction false} CountedAre(d: Driver, ids: seq<string>)
    ensures |Counted(d, ids)| == P50Count(d, ids) && S.Sum(Counted(d, ids)) == P50Total(d, ids)
  {
    if ids != [] {
      var n := |ids| - 1;
      CountedAre(d, ids[..n]);
      P50Snoc(d, ids[..n], ids[n]);
      PrefixStep(ids, n);
      Units(ids);
      var before, p := Counted(d, ids[..n]), P50(d, ids[n]);
      if p.Some? {
        S.SumSnoc(before, p.value);
      } else {
        Units(before);
      }
    }
  }

  // The average times the number of p50s is their total; there is none without a p50.
  lemma AverageExactly(d: Driver, ids: seq<string>)
    ensures Average(d, ids).None? <==> P50Count(d, ids) == 0
    ensures Average(d, ids).Some? ==> Average(d, ids).value * P50Count(d, ids) as real == P50Total(d, ids)
  {
    CountedAre(d, ids);
    var s := Counted(d, ids);
    if s != [] { S.MeanTimesCount(s); }
  }

  // Recorded winners are first-least drivers of their tasks, and each task that
  // has one is recorded once, in task order.
  lemma {:induction false} WinnersAre(drivers: seq<Driver>, ids: seq<string>, w: Winner)
    ensures w in Winners(drivers, ids) <==>
            w.tid in ids && w.driver != "" &&
            exists k :: 0 <= k < |drivers| && FirstLeast(drivers, w.tid, k) && drivers[k].name == w.driver && P50(drivers[k], w.tid) == Some(w.p50)
  {
    if ids != [] {
      var tid := ids[|ids| - 1];
      WinnersAre(drivers, ids[..|ids| - 1], w);
      BestIsFirstLeast(drivers, tid);
      assert ids == ids[..|ids| - 1] + [tid];
      var v := WinnerOf(drivers, tid);
      if w.tid == tid {
        if v == Some(w) {
          assert FirstLeast(drivers, tid, Best(drivers, tid).value);
        }
      }
    }
  }

  // ---- win counts add up ----

  lemma {:induction false} WinsSplit(winners: seq<Winner>, drivers: seq<Driver>)
    requires winners != []
    ensures TotalWins(winners, drivers) == TotalWins(winners[..|winners| - 1], drivers)
              + TotalWins([winners[|winners| - 1]], drivers)
  {
    if drivers != [] {
      WinsSplit(winners, drivers[..|drivers| - 1]);
      var w := winners[|winners| - 1];
      assert [w][..0] == [];
      assert Wins([w], drivers[|drivers| - 1].name) == Wins([w][..0], drivers[|drivers| - 1].name) + if w.driver == drivers[|drivers| - 1].name then 1 else 0;
    }
  }

  ghost predicate Named(drivers: seq<Driver>, name: string) {
    exists k :: 0 <= k < |drivers| && drivers[k].name == name
  }

  lemma {:induction false} OneWin(w: Winner, drivers: seq<Driver>)
    requires DistinctNames(drivers)
    ensures TotalWins([w], drivers) == if Named(drivers, w.driver) then 1 else 0
  {
    if drivers != [] {
      var n := |drivers| - 1;
      OneWin(w, drivers[..n]);
      assert [w][..0] == [];
      assert Wins([w], drivers[n].name) == Wins([w][..0], drivers[n].name) + if w.driver == drivers[n].name then 1 else 0;
      if drivers[n].name == w.driver {
        assert !Named(drivers[..n], w.driver);
      } else if Named(drivers, w.driver) {
        var k :| 0 <= k < |drivers| && drivers[k].name == w.driver;
        assert drivers[..n][k].name == w.driver;
      }
    }
  }

  ghost predicate AmongDrivers(winners: seq<Winner>, drivers: seq<Driver>) {
    forall w :: w in winners ==> Named(drivers, w.driver)
  }

  lemma {:induction false} WinsAddUp(winners: seq<Winner>, drivers: seq<Driver>)
    requires DistinctNames(drivers) && AmongDrivers(winners, drivers)
    ensures TotalWins(winners, drivers) == |winners|
  {
    if winners == [] {
      NoWins(drivers);
    } else {
      WinsAddUp(winners[..|winners| - 1], drivers);
      WinsSplit(winners, drivers);
      OneWin(winners[|winners| - 1], drivers);
    }
  }

  lemma {:induction false} NoWins(drivers: seq<Driver>)
    ensures TotalWins([], drivers) == 0
  {
    if drivers != [] { NoWins(drivers[..|drivers| - 1]); }
  }

  lemma {:induction false} WinnersAmongDrivers(drivers: seq<Driver>, ids: seq<string>)
    ensures AmongDrivers(Winners(drivers, ids), drivers)
    ensures |Winners(drivers, ids)| <= |ids|
  {
    if ids != [] { WinnersAmongDrivers(drivers, ids[..|ids| - 1]); }
  }

  ghost function MeasuredCount(drivers: seq<Driver>, ids: seq<string>): nat {
    if ids == [] then 0
    else MeasuredCount(drivers, ids[..|ids| - 1]) + if Measured(drivers, ids[|ids| - 1]) then 1 else 0
  }

  // A task is won by the driver whose name is empty.
  ghost predicate WonByNameless(drivers: seq<Driver>, tid: string) {
    exists k :: 0 <= k < |drivers| && FirstLeast(drivers, tid, k) && drivers[k].name == ""
  }

  lemma {:induction false} WinnersPerTask(drivers: seq<Driver>, ids: seq<string>)
    ensures |Winners(drivers, ids)| <= MeasuredCount(drivers, ids)
    ensures |Winners(drivers, ids)| == MeasuredCount(drivers, ids) <==>
            forall i :: 0 <= i < |ids| ==> !WonByNameless(drivers, ids[i])
  {
    if ids != [] {
      var n := |ids| - 1;
      WinnersPerTask(drivers, ids[..n]);
      BestIsFirstLeast(drivers, ids[n]);
      var best := Best(drivers, ids[n]);
      if best.Some? {
        assert FirstLeast(drivers, ids[n], best.value);
        assert WonByNameless(drivers, ids[n]) <==> drivers[best.value].name == "";
      }
      assert forall i :: 0 <= i < n ==> ids[..n][i] == ids[i];
    }
  }

  // The wins of all drivers sum to the number of tasks with a p50, exactly when
  // no task is won by a driver with the empty name.
  lemma WinsCountTasks(drivers: seq<Driver>, ids: seq<string>)
    requires DistinctNames(drivers)
    ensures TotalWins(Winners(drivers, ids), drivers) == |Winners(drivers, ids)|
    ensures TotalWins(Winners(drivers, ids), drivers) == MeasuredCount(drivers, ids) <==>
            forall i :: 0 <= i < |ids| ==> !WonByNameless(drivers, ids[i])
  {
    WinnersAmongDrivers(drivers, ids);
    WinsAddUp(Winners(drivers, ids), drivers);
    WinnersPerTask(drivers, ids);
  }

  lemma OneTask(drivers: seq<Driver>, tid: string)
    ensures Winners(drivers, [tid]) == if WinnerOf(drivers, tid).Some? then [WinnerOf(drivers, tid).value] else []
    ensures MeasuredCount(drivers, [tid]) == if Measured(drivers, tid) then 1 else 0
  {
    var ids := [tid];
    var none := ids[..|ids| - 1];
    assert none == [];
    assert Winners(drivers, none) == [] && MeasuredCount(drivers, none) == 0;
  }

  lemma OneMention(d: Driver, e: TaskEntry, tid: string)
    requires d.tasks == [(tid, e)]
    ensures TaskIds([d]) == [tid]
  {
    MentionsOne(d);
    assert TaskNames(d.tasks) == [tid];
    assert [tid][..0] == [] && Distinct([tid][..0]) == [];
  }

  // The condition is needed: a lone driver named "" is the best on its task, and
  // nobody is credited with it.
  lemma NamelessWinLost(tid: string, e: TaskEntry)
    requires e.stats.Some? && e.stats.value.p50.Number?
    ensures var drivers := [Driver("", false, [(tid, e)])];
            && DistinctNames(drivers) && TaskIds(drivers) == [tid]
            && MeasuredCount(drivers, [tid]) == 1 && TotalWins(Winners(drivers, [tid]), drivers) == 0
  {
    var d := Driver("", false, [(tid, e)]);
    var drivers := [d];
    assert P50(drivers[0], tid).Some?;
    OneMention(d, e, tid);
    OneTask(drivers, tid);
    assert WinnerOf(drivers, tid) == None;
    NoWins(drivers);
  }

  // ---- ranking ----

  datatype Standing = Standing(name: string, wins: nat, average: Option<real>)

  predicate AverageLeq(a: Option<real>, b: Option<real>) {
    b.None? || (a.Some? && a.value <= b.value)
  }

  // The sort key (-wins, average).
  predicate NotBehind(a: Standing, b: Standing) {
    a.wins > b.wins || (a.wins == b.wins && AverageLeq(a.average, b.average))
  }

  lemma NotBehindPreorder()
    ensures TotalPreorder(NotBehind)
  {
  }

  function StandingOf(d: Driver, winners: seq<Winner>, ids: seq<string>): Standing {
    Standing(d.name, Wins(winners, d.name), Average(d, ids))
  }

  function Standings(drivers: seq<Driver>, winners: seq<Winner>, ids: seq<string>): (r: seq<Standing>)
    ensures |r| == |drivers|
    ensures forall i :: 0 <= i < |drivers| ==> r[i] == StandingOf(drivers[i], winners, ids)
  {
    seq(|drivers|, i requires 0 <= i < |drivers| => StandingOf(drivers[i], winners, ids))
  }

  function AllStandings(drivers: seq<Driver>): (r: seq<Standing>)
    ensures |r| == |drivers| && forall i :: 0 <= i < |drivers| ==> r[i].name == drivers[i].name
  {
    var ids := TaskIds(drivers);
    Standings(drivers, Winners(drivers, ids), ids)
  }

  function Ranking(drivers: seq<Driver>): seq<Standing> {
    Sort(NotBehind, AllStandings(drivers))
  }

  // The ranking is a permutation of the drivers, most wins first, then least
  // average, ties in the original order; and it is the only such list.
  lemma RankingIsStable(drivers: seq<Driver>, r: seq<Standing>)
    ensures multiset(Ranking(drivers)) == multiset(AllStandings(drivers))
    ensures r == Ranking(drivers) <==> StablyOrdered(NotBehind, AllStandings(drivers), r)
  {
    NotBehindPreorder();
    SortStable(NotBehind, AllStandings(drivers));
    SortCharacterised(NotBehind, AllStandings(drivers), r);
  }

  // ---- who ranks above whom ----

  // Both names are ranked, and x stands before y wherever they do.
  ghost predicate RanksAbove(drivers: seq<Driver>, x: string, y: string) {
    var r := Ranking(drivers);
    && (exists i :: 0 <= i < |r| && r[i].name == x)
    && (exists j :: 0 <= j < |r| && r[j].name == y)
    && forall i, j :: 0 <= i < |r| && 0 <= j < |r| && r[i].name == x && r[j].name == y ==> i < j
  }

  // A driver's standing is found under its name only.
  lemma StandingIn(drivers: seq<Driver>, r: seq<Standing>, i: nat, k: nat)
    requires DistinctNames(drivers) && k < |drivers| && i < |r| && r[i].name == drivers[k].name
    requires multiset(r) == multiset(AllStandings(drivers))
    ensures r[i] == AllStandings(drivers)[k]
  {
    var all := AllStandings(drivers);
    var m := PlaceIn(r, all, i);
    assert drivers[m].name == drivers[k].name;
  }

  // A driver ranks above another exactly when its standing is strictly ahead, or on
  // a par and it comes first in the results.
  lemma RanksAboveExactly(drivers: seq<Driver>, a: nat, b: nat)
    requires DistinctNames(drivers) && a < |drivers| && b < |drivers|
    ensures var all := AllStandings(drivers);
            RanksAbove(drivers, drivers[a].name, drivers[b].name) <==>
            NotBehind(all[a], all[b]) && (NotBehind(all[b], all[a]) ==> a < b)
  {
    var all, r := AllStandings(drivers), Ranking(drivers);
    var x, y := drivers[a].name, drivers[b].name;
    NotBehindPreorder();
    RankingIsStable(drivers, r);
    SortedBefore(NotBehind, all, a, b);
    var k := PlaceIn(all, r, a);
    var l := PlaceIn(all, r, b);
    if Before(r, all[a], all[b]) {
      forall i, j | 0 <= i < |r| && 0 <= j < |r| && r[i].name == x && r[j].name == y ensures i < j {
        StandingIn(drivers, r, i, a);
        StandingIn(drivers, r, j, b);
      }
    } else if RanksAbove(drivers, x, y) {
      assert r[k].name == x && r[l].name == y;
    }
  }

  // ---- the ranking in numbers ----

  // The task's winner is driver k, by name.
  ghost predicate WonBy(drivers: seq<Driver>, tid: string, k: nat)
    requires k < |drivers|
  {
    WinnerOf(drivers, tid).Some? && WinnerOf(drivers, tid).value.driver == drivers[k].name
  }

  lemma WonExactly(drivers: seq<Driver>, tid: string, k: nat)
    requires DistinctNames(drivers) && k < |drivers|
    ensures WonBy(drivers, tid, k) <==> FirstLeast(drivers, tid, k) && drivers[k].name != ""
  {
    BestIsFirstLeast(drivers, tid);
    var best := Best(drivers, tid);
    if best.Some? && drivers[best.value].name == drivers[k].name {
      assert best.value == k;
    }
  }

  lemma WinsStep(drivers: seq<Driver>, ids: seq<string>, k: nat)
    requires ids != [] && k < |drivers|
    ensures Wins(Winners(drivers, ids), drivers[k].name) ==
            Wins(Winners(drivers, ids[..|ids| - 1]), drivers[k].name) + if WonBy(drivers, ids[|ids| - 1], k) then 1 else 0
  {
    var before, w := Winners(drivers, ids[..|ids| - 1]), WinnerOf(drivers, ids[|ids| - 1]);
    if w.Some? {
      Snoc(before, w.value);
    } else {
      Units(before);
    }
  }

  // The listed tasks driver k wins: it is the first to attain the least p50, and has
  // a name.
  ghost function TasksWon(drivers: seq<Driver>, ids: seq<string>, k: nat): set<string>
    requires k < |drivers|
  {
    set tid | tid in ids && FirstLeast(drivers, tid, k) && drivers[k].name != ""
  }

  lemma TasksWonStep(drivers: seq<Driver>, ids: seq<string>, tid: string, k: nat)
    requires DistinctNames(drivers) && k < |drivers| && tid !in ids
    ensures |TasksWon(drivers, ids + [tid], k)| == |TasksWon(drivers, ids, k)| + if WonBy(drivers, tid, k) then 1 else 0
  {
    WonExactly(drivers, tid, k);
    assert TasksWon(drivers, ids + [tid], k) == TasksWon(drivers, ids, k) + if WonBy(drivers, tid, k) then {tid} else {};
  }

  lemma {:induction false} WinsAreTasksWon(drivers: seq<Driver>, ids: seq<string>, k: nat)
    requires DistinctNames(drivers) && k < |drivers| && NoRepeats(ids)
    ensures Wins(Winners(drivers, ids), drivers[k].name) == |TasksWon(drivers, ids, k)|
  {
    if ids == [] {
      assert TasksWon(drivers, ids, k) == {};
    } else {
      var n := |ids| - 1;
      WinsAreTasksWon(drivers, ids[..n], k);
      WinsStep(drivers, ids, k);
      TasksWonStep(drivers, ids[..n], ids[n], k);
      PrefixStep(ids, n);
      Units(ids);
    }
  }

  // The average of m numbers adding up to x is below that of n adding up to y, no
  // numbers being the worst; and the two are on a par.
  ghost predicate MeanBelow(m: nat, x: real, n: nat, y: real) {
    m > 0 && (n == 0 || x * n as real < y * m as real)
  }

  ghost predicate MeanOnPar(m: nat, x: real, n: nat, y: real) {
    if m == 0 || n == 0 then m == n else x * n as real == y * m as real
  }

  lemma CrossMultiplied(x: real, y: real, m: real, n: real)
    requires m > 0.0 && n > 0.0
    ensures x < y <==> x * m * n < y * n * m
    ensures x == y <==> x * m * n == y * n * m
  {
    var k := m * n;
    assert k > 0.0;
    assert x * m * n == x * k && y * n * m == y * k;
    if x < y {
      assert (y - x) * k > 0.0;
    } else {
      S.MulMonotone(k, y, x);
      if x > y { assert (x - y) * k > 0.0; }
    }
  }

  lemma MeansCompare(a: Option<real>, m: nat, x: real, b: Option<real>, n: nat, y: real)
    requires (a.None? <==> m == 0) && (b.None? <==> n == 0)
    requires (a.Some? ==> a.value * m as real == x) && (b.Some? ==> b.value * n as real == y)
    ensures MeanBelow(m, x, n, y) <==> AverageLeq(a, b) && !AverageLeq(b, a)
    ensures MeanOnPar(m, x, n, y) <==> AverageLeq(a, b) && AverageLeq(b, a)
  {
    if m > 0 && n > 0 {
      CrossMultiplied(a.value, b.value, m as real, n as real);
    }
  }

  ghost predicate AverageBelow(d: Driver, e: Driver, ids: seq<string>) {
    MeanBelow(P50Count(d, ids), P50Total(d, ids), P50Count(e, ids), P50Total(e, ids))
  }

  ghost predicate AverageOnPar(d: Driver, e: Driver, ids: seq<string>) {
    MeanOnPar(P50Count(d, ids), P50Total(d, ids), P50Count(e, ids), P50Total(e, ids))
  }

  lemma AveragesCompare(d: Driver, e: Driver, ids: seq<string>)
    ensures var a, b := Average(d, ids), Average(e, ids);
            && (AverageBelow(d, e, ids) <==> AverageLeq(a, b) && !AverageLeq(b, a))
            && (AverageOnPar(d, e, ids) <==> AverageLeq(a, b) && AverageLeq(b, a))
  {
    AverageExactly(d, ids);
    AverageExactly(e, ids);
    MeansCompare(Average(d, ids), P50Count(d, ids), P50Total(d, ids), Average(e, ids), P50Count(e, ids), P50Total(e, ids));
  }

  // Who ranks above whom: more tasks won; else the smaller average p50; else the one
  // that comes first in the results.
  lemma RanksByNumbers(drivers: seq<Driver>, a: nat, b: nat)
    requires DistinctNames(drivers) && a < |drivers| && b < |drivers|
    ensures var ids := TaskIds(drivers);
            var won, other := |TasksWon(drivers, ids, a)|, |TasksWon(drivers, ids, b)|;
            RanksAbove(drivers, drivers[a].name, drivers[b].name) <==>
              || won > other
              || (won == other && (|| AverageBelow(drivers[a], drivers[b], ids)
                                   || (AverageOnPar(drivers[a], drivers[b], ids) && a < b)))
  {
    var ids := TaskIds(drivers);
    DistinctIsFirstSeen(Mentions(drivers));
    RanksAboveExactly(drivers, a, b);
    WinsAreTasksWon(drivers, ids, a);
    WinsAreTasksWon(drivers, ids, b);
    AveragesCompare(drivers[a], drivers[b], ids);
    AveragesCompare(drivers[b], drivers[a], ids);
  }

  // ---- dominance ----

  // a and b have a p50 on the same tasks, and a's is always strictly smaller.
  ghost predicate Faster(a: Driver, b: Driver) {
    && (forall tid :: P50(a, tid).Some? <==> P50(b, tid).Some?)
    && (forall tid :: P50(a, tid).Some? && P50(b, tid).Some? ==> P50(a, tid).value < P50(b, tid).value)
  }

  lemma {:induction false} LoserNeverWins(drivers: seq<Driver>, ids: seq<string>, a: nat, b: nat)
    requires DistinctNames(drivers) && a < |drivers| && b < |drivers| && Faster(drivers[a], drivers[b])
    ensures Wins(Winners(drivers, ids), drivers[b].name) == 0
  {
    if ids != [] {
      LoserNeverWins(drivers, ids[..|ids| - 1], a, b);
      var tid := ids[|ids| - 1];
      BestIsFirstLeast(drivers, tid);
      var w := WinnerOf(drivers, tid);
      if w.Some? {
        var k := Best(drivers, tid).value;
        assert FirstLeast(drivers, tid, k);
        assert k != b;
        var before := Winners(drivers, ids[..|ids| - 1]);
        Snoc(before, w.value);
      } else {
        Units(Winners(drivers, ids[..|ids| - 1]));
      }
    }
  }

  lemma {:induction false} FasterSum(a: Driver, b: Driver, ids: seq<string>)
    requires Faster(a, b)
    ensures |Counted(a, ids)| == |Counted(b, ids)|
    ensures Counted(a, ids) == [] || S.Sum(Counted(a, ids)) < S.Sum(Counted(b, ids))
  {
    if ids != [] {
      var n := |ids| - 1;
      FasterSum(a, b, ids[..n]);
      var p, q := P50(a, ids[n]), P50(b, ids[n]);
      var s, t := Counted(a, ids[..n]), Counted(b, ids[..n]);
      if p.Some? {
        assert Counted(a, ids) == s + [p.value] && Counted(b, ids) == t + [q.value];
        S.SumSnoc(s, p.value);
        S.SumSnoc(t, q.value);
      } else {
        assert Counted(a, ids) == s && Counted(b, ids) == t;
      }
    }
  }

  lemma {:induction false} CountedSome(d: Driver, ids: seq<string>, tid: string)
    requires tid in ids && P50(d, tid).Some?
    ensures Counted(d, ids) != []
  {
    var n := |ids| - 1;
    if ids[n] != tid {
      CountedSome(d, ids[..n], tid);
    }
  }

  lemma QuotientLess(x: real, y: real, n: real)
    requires x < y && n > 0.0
    ensures x / n < y / n
  {
    assert (y - x) / n > 0.0;
    assert y / n == x / n + (y - x) / n;
  }

  lemma {:induction false} TaskIsListed(drivers: seq<Driver>, k: nat, tid: string)
    requires k < |drivers| && P50(drivers[k], tid).Some?
    ensures tid in Mentions(drivers)
  {
    if k == |drivers| - 1 {
      FoundIsNamed(drivers[k].tasks, tid);
    } else {
      TaskIsListed(drivers[..|drivers| - 1], k, tid);
    }
  }

  lemma {:induction false} FoundIsNamed(tasks: seq<(string, TaskEntry)>, tid: string)
    requires Find(tasks, tid) != ABSENT
    ensures tid in TaskNames(tasks)
  {
    if tasks[0].0 == tid {
      assert TaskNames(tasks)[0] == tid;
    } else {
      FoundIsNamed(tasks[1..], tid);
      assert TaskNames(tasks) == [tasks[0].0] + TaskNames(tasks[1..]);
    }
  }

  lemma FasterIsAhead(drivers: seq<Driver>, a: nat, b: nat, tid: string)
    requires DistinctNames(drivers) && a < |drivers| && b < |drivers|
    requires Faster(drivers[a], drivers[b]) && P50(drivers[a], tid).Some?
    ensures NotBehind(AllStandings(drivers)[a], AllStandings(drivers)[b])
    ensures !NotBehind(AllStandings(drivers)[b], AllStandings(drivers)[a])
  {
    var ids := TaskIds(drivers);
    LoserNeverWins(drivers, ids, a, b);
    TaskIsListed(drivers, a, tid);
    DistinctIsFirstSeen(Mentions(drivers));
    CountedSome(drivers[a], ids, tid);
    FasterSum(drivers[a], drivers[b], ids);
    var s, t := Counted(drivers[a], ids), Counted(drivers[b], ids);
    QuotientLess(S.Sum(s), S.Sum(t), |s| as real);
  }

  // A driver strictly faster than another on each of the (one or more) tasks they
  // both have p50s for ranks strictly above it, whatever the others did.
  lemma FasterRanksAbove(drivers: seq<Driver>, a: nat, b: nat, tid: string)
    requires DistinctNames(drivers) && a < |drivers| && b < |drivers|
    requires Faster(drivers[a], drivers[b]) && P50(drivers[a], tid).Some?
    ensures RanksAbove(drivers, drivers[a].name, drivers[b].name)
  {
    FasterIsAhead(drivers, a, b, tid);
    RanksAboveExactly(drivers, a, b);
  }

  // ---- improving ----

  // e is d with the same tasks in the same order, and no p50 larger than it was.
  ghost predicate Improved(d: Driver, e: Driver) {
    && e.name == d.name && e.failed == d.failed && TaskNames(e.tasks) == TaskNames(d.tasks)
    && (forall tid :: P50(e, tid).Some? <==> P50(d, tid).Some?)
    && (forall tid :: P50(e, tid).Some? && P50(d, tid).Some? ==> P50(e, tid).value <= P50(d, tid).value)
  }

  // The results with driver a improved to e.
  ghost predicate Improves(drivers: seq<Driver>, a: nat, e: Driver, next: seq<Driver>) {
    a < |drivers| && Improved(drivers[a], e) && next == drivers[a := e]
  }

  lemma {:induction false} SameMentionsImproved(drivers: seq<Driver>, a: nat, e: Driver, next: seq<Driver>, n: nat)
    requires Improves(drivers, a, e, next) && n <= |drivers|
    ensures Mentions(next[..n]) == Mentions(drivers[..n])
  {
    if n > 0 {
      SameMentionsImproved(drivers, a, e, next, n - 1);
      PrefixStep(drivers, n - 1);
      PrefixStep(next, n - 1);
    }
  }

  lemma SameTaskIds(drivers: seq<Driver>, a: nat, e: Driver, next: seq<Driver>)
    requires Improves(drivers, a, e, next)
    ensures TaskIds(next) == TaskIds(drivers)
  {
    SameMentionsImproved(drivers, a, e, next, |drivers|);
    Units(drivers);
    Units(next);
  }

  // Improving keeps the tasks a driver wins, and gives no other driver a task.
  lemma FirstLeastImproved(drivers: seq<Driver>, a: nat, e: Driver, next: seq<Driver>, tid: string, k: nat)
    requires Improves(drivers, a, e, next)
    ensures k == a && FirstLeast(drivers, tid, k) ==> FirstLeast(next, tid, k)
    ensures k != a && FirstLeast(next, tid, k) ==> FirstLeast(drivers, tid, k)
  {
    if k != a && FirstLeast(next, tid, k) {
      forall j | 0 <= j < |drivers| && P50(drivers[j], tid).Some?
        ensures if j < k then P50(drivers[j], tid).value > P50(drivers[k], tid).value
                else P50(drivers[j], tid).value >= P50(drivers[k], tid).value
      {
        assert P50(next[j], tid).Some?;
      }
    } else if k == a && FirstLeast(drivers, tid, k) {
      forall j | 0 <= j < |next| && P50(next[j], tid).Some?
        ensures if j < k then P50(next[j], tid).value > P50(next[k], tid).value
                else P50(next[j], tid).value >= P50(next[k], tid).value
      {
        assert P50(drivers[j], tid).Some?;
      }
    }
  }

  lemma {:induction false} WinsImproved(drivers: seq<Driver>, a: nat, e: Driver, next: seq<Driver>, ids: seq<string>, k: nat)
    requires DistinctNames(drivers) && Improves(drivers, a, e, next) && k < |drivers|
    ensures var was, now := Wins(Winners(drivers, ids), drivers[k].name), Wins(Winners(next, ids), next[k].name);
            if k == a then was <= now else now <= was
  {
    if ids != [] {
      var tid := ids[|ids| - 1];
      WinsImproved(drivers, a, e, next, ids[..|ids| - 1], k);
      WinsStep(drivers, ids, k);
      WinsStep(next, ids, k);
      WonExactly(drivers, tid, k);
      WonExactly(next, tid, k);
      FirstLeastImproved(drivers, a, e, next, tid, k);
    }
  }

  lemma {:induction false} CountedImproved(d: Driver, e: Driver, ids: seq<string>)
    requires Improved(d, e)
    ensures |Counted(e, ids)| == |Counted(d, ids)| && S.Sum(Counted(e, ids)) <= S.Sum(Counted(d, ids))
  {
    if ids != [] {
      var n := |ids| - 1;
      CountedImproved(d, e, ids[..n]);
      var p, q := P50(d, ids[n]), P50(e, ids[n]);
      var s, t := Counted(d, ids[..n]), Counted(e, ids[..n]);
      if p.Some? {
        assert Counted(d, ids) == s + [p.value] && Counted(e, ids) == t + [q.value];
        S.SumSnoc(s, p.value);
        S.SumSnoc(t, q.value);
      } else {
        Units(s);
        Units(t);
      }
    }
  }

  lemma AverageImproved(d: Driver, e: Driver, ids: seq<string>)
    requires Improved(d, e)
    ensures AverageLeq(Average(e, ids), Average(d, ids))
  {
    CountedImproved(d, e, ids);
    var s, t := Counted(d, ids), Counted(e, ids);
    if s != [] && S.Sum(t) < S.Sum(s) {
      QuotientLess(S.Sum(t), S.Sum(s), |s| as real);
    }
  }

  // An improved driver is not behind, and is strictly ahead of, whom it was.
  lemma ImprovedStanding(drivers: seq<Driver>, a: nat, e: Driver, next: seq<Driver>, b: nat)
    requires DistinctNames(drivers) && Improves(drivers, a, e, next) && b < |drivers| && b != a
    ensures var was, now := AllStandings(drivers), AllStandings(next);
            && (NotBehind(was[a], was[b]) ==> NotBehind(now[a], now[b]))
            && (NotBehind(now[b], now[a]) ==> NotBehind(was[b], was[a]))
  {
    var ids := TaskIds(drivers);
    SameTaskIds(drivers, a, e, next);
    WinsImproved(drivers, a, e, next, ids, a);
    WinsImproved(drivers, a, e, next, ids, b);
    AverageImproved(drivers[a], e, ids);
  }

  // Lowering a driver's p50s on tasks it has never costs it a place: it ranks above
  // everyone it ranked above before, whatever the others did.
  lemma ImprovingKeepsRank(drivers: seq<Driver>, a: nat, e: Driver, next: seq<Driver>, b: nat)
    requires DistinctNames(drivers) && Improves(drivers, a, e, next) && b < |drivers|
    requires RanksAbove(drivers, drivers[a].name, drivers[b].name)
    ensures RanksAbove(next, drivers[a].name, drivers[b].name)
  {
    RanksAboveExactly(drivers, a, b);
    RanksAboveExactly(next, a, b);
    if a != b { ImprovedStanding(drivers, a, e, next, b); }
  }

  // ---- for a results dictionary ----

  // Driver k of the dictionary is driver i of the ones shown.
  lemma {:induction false} IsShown(drivers: seq<Driver>, k: nat) returns (i: nat)
    requires k < |drivers| && (!drivers[k].failed || drivers[k].tasks != [])
    ensures i < |MarkdownDrivers(drivers)| && MarkdownDrivers(drivers)[i] == drivers[k]
  {
    if k == 0 {
      i := 0;
    } else {
      var j := IsShown(drivers[1..], k - 1);
      i := if !drivers[0].failed || drivers[0].tasks != [] then j + 1 else j;
    }
  }

  lemma {:induction false} ShownComesFrom(drivers: seq<Driver>, i: nat) returns (k: nat)
    requires i < |MarkdownDrivers(drivers)|
    ensures k < |drivers| && MarkdownDrivers(drivers)[i] == drivers[k] && (!drivers[k].failed || drivers[k].tasks != [])
  {
    var first := !drivers[0].failed || drivers[0].tasks != [];
    if first && i == 0 {
      k := 0;
    } else {
      var j := ShownComesFrom(drivers[1..], if first then i - 1 else i);
      k := j + 1;
    }
  }

  lemma {:induction false} ShownDistinct(drivers: seq<Driver>)
    requires DistinctNames(drivers)
    ensures DistinctNames(MarkdownDrivers(drivers))
  {
    if drivers != [] {
      var rest := MarkdownDrivers(drivers[1..]);
      ShownDistinct(drivers[1..]);
      forall i | 0 <= i < |rest| ensures rest[i].name != drivers[0].name {
        var k := ShownComesFrom(drivers[1..], i);
        assert drivers[k + 1].name != drivers[0].name;
      }
    }
  }

  // Whoever has a p50 is shown, failed or not.
  lemma MeasuredIsShown(drivers: seq<Driver>, k: nat, tid: string) returns (i: nat)
    requires k < |drivers| && P50(drivers[k], tid).Some?
    ensures i < |MarkdownDrivers(drivers)| && MarkdownDrivers(drivers)[i] == drivers[k]
  {
    i := IsShown(drivers, k);
  }

  // The ranking the report prints for a results dictionary: strictly faster on one
  // or more common tasks stands strictly above, whatever the others did.
  lemma FasterRanksAboveInReport(drivers: seq<Driver>, a: nat, b: nat, tid: string)
    requires DistinctNames(drivers) && a < |drivers| && b < |drivers|
    requires Faster(drivers[a], drivers[b]) && P50(drivers[a], tid).Some?
    ensures RanksAbove(MarkdownDrivers(drivers), drivers[a].name, drivers[b].name)
  {
    ShownDistinct(drivers);
    var i := MeasuredIsShown(drivers, a, tid);
    var j := MeasuredIsShown(drivers, b, tid);
    FasterRanksAbove(MarkdownDrivers(drivers), i, j, tid);
  }

  // Improving a driver of the dictionary improves it among those shown.
  lemma {:induction false} ShownImproved(drivers: seq<Driver>, a: nat, e: Driver, next: seq<Driver>) returns (i: nat)
    requires Improves(drivers, a, e, next) && (!drivers[a].failed || drivers[a].tasks != [])
    ensures i < |MarkdownDrivers(drivers)| && MarkdownDrivers(drivers)[i] == drivers[a]
    ensures Improves(MarkdownDrivers(drivers), i, e, MarkdownDrivers(next))
  {
    var shown, rest := MarkdownDrivers(drivers), MarkdownDrivers(drivers[1..]);
    assert |TaskNames(e.tasks)| == |TaskNames(drivers[a].tasks)|;
    if a == 0 {
      i := 0;
      assert next[1..] == drivers[1..];
      assert MarkdownDrivers(next) == [e] + rest;
      assert shown == [drivers[0]] + rest;
    } else {
      assert next[1..] == drivers[1..][a - 1 := e];
      var j := ShownImproved(drivers[1..], a - 1, e, next[1..]);
      i := j + |shown| - |rest|;
    }
  }

  // Whoever is ranked is shown.
  lemma RankedIsShown(drivers: seq<Driver>, k: nat, i: nat)
    requires DistinctNames(drivers) && k < |drivers|
    requires i < |Ranking(MarkdownDrivers(drivers))| && Ranking(MarkdownDrivers(drivers))[i].name == drivers[k].name
    ensures !drivers[k].failed || drivers[k].tasks != []
  {
    var r, all := Ranking(MarkdownDrivers(drivers)), AllStandings(MarkdownDrivers(drivers));
    RankingIsStable(MarkdownDrivers(drivers), r);
    assert r[i] in multiset(all);
    var j :| 0 <= j < |all| && all[j] == r[i];
    var l := ShownComesFrom(drivers, j);
    assert drivers[l].name == drivers[k].name;
  }

  // So in the report of a results dictionary an improved driver stands above every
  // driver it stood above.
  lemma ImprovingKeepsRankInReport(drivers: seq<Driver>, a: nat, e: Driver, next: seq<Driver>, b: nat)
    requires DistinctNames(drivers) && Improves(drivers, a, e, next) && b < |drivers|
    requires RanksAbove(MarkdownDrivers(drivers), drivers[a].name, drivers[b].name)
    ensures RanksAbove(MarkdownDrivers(next), drivers[a].name, drivers[b].name)
  {
    ShownDistinct(drivers);
    var r := Ranking(MarkdownDrivers(drivers));
    var k, l :| 0 <= k < |r| && 0 <= l < |r| && r[k].name == drivers[a].name && r[l].name == drivers[b].name;
    RankedIsShown(drivers, a, k);
    RankedIsShown(drivers, b, l);
    var i := ShownImproved(drivers, a, e, next);
    var j := IsShown(drivers, b);
    ImprovingKeepsRank(MarkdownDrivers(drivers), i, e, MarkdownDrivers(next), j);
  }
}
