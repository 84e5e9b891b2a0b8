/**
  run_task: every iteration makes the driver calls its task prescribes, stops at
  the first one that fails, and records one rounded result.
 */
module TaskRunner {
  import opened OptionType
  import opened Statistics
  import opened Sequences

  // Error texts: the driver's own, and the two run_task makes up.
  datatype Error = Reported(text: string) | NavigationFailed | UnknownTask(id: string)

  datatype TimedResult = TimedResult(durationMs: real, success: bool, error: Option<Error>)

  datatype Call =
    | Setup
    | Teardown
    | Navigate(url: Option<string>)
    | Snapshot(interactiveOnly: bool)
    | Screenshot(iteration: nat, annotate: bool)
    | EvalJs(code: Option<string>)
    | Click(selector: Option<string>)
    | SaveState(iteration: nat)
    | LoadState(iteration: nat)

  // A driver may answer by anything that happened before; history ends with the
  // call being made. Teardown has no result.
  type Driver = seq<Call> -> TimedResult

  // The task ids run_task branches on; Other is any other id. The ten pages of
  // navigate_10x are a constant of the script, here any list of pages.
  datatype TaskId =
    | ColdStart
    | NavigateComplex
    | SnapshotFull
    | SnapshotInteractive
    | ScreenshotPlain
    | ScreenshotAnnotated
    | EvalSimple
    | EvalComplex
    | ClickWaitSnapshot
    | Navigate10x(pages: seq<string>)
    | StateSaveLoad
    | Other(name: string)

  datatype Task = Task(id: TaskId, iterations: int, url: Option<string>, jsCode: Option<string>, selector: Option<string>)

  datatype Entry = Entry(durationMs: real, success: bool, error: Option<Error>)

  datatype Exchange = Exchange(call: Call, result: TimedResult)

  // None and the empty string are both falsy.
  predicate Truthy(s: Option<string>) { s.Some? && s.value != "" }

  // _result_to_dict
  function Serialize(r: TimedResult): Entry {
    Entry(Round3(r.durationMs), r.success, if r.error == Some(Reported("")) then None else r.error)
  }

  // ---- what one iteration is meant to do ----

  predicate PreNavigates(task: Task) {
    Truthy(task.url) && task.id != ColdStart && task.id != NavigateComplex
  }

  function NavCalls(urls: seq<string>): seq<Call> {
    if urls == [] then [] else [Navigate(Some(urls[0]))] + NavCalls(urls[1..])
  }

  // Tasks measured by one driver call.
  function SingleCall(task: Task, i: nat): Option<Call> {
    match task.id
    case NavigateComplex => Some(Navigate(task.url))
    case SnapshotFull => Some(Snapshot(false))
    case SnapshotInteractive => Some(Snapshot(true))
    case ScreenshotPlain => Some(Screenshot(i, false))
    case ScreenshotAnnotated => Some(Screenshot(i, true))
    case EvalSimple => Some(EvalJs(task.jsCode))
    case EvalComplex => Some(EvalJs(task.jsCode))
    case _ => None
  }

  // The measured calls of a known task; None for an unknown one.
  function Measured(task: Task, i: nat): Option<seq<Call>> {
    match task.id
    case ColdStart => Some([Teardown, Setup, Navigate(task.url)])
    case ClickWaitSnapshot => Some([Click(task.selector), Snapshot(false)])
    case Navigate10x(pages) => Some(NavCalls(pages))
    case StateSaveLoad => Some([SaveState(i), LoadState(i)])
    case _ => if SingleCall(task, i).Some? then Some([SingleCall(task, i).value]) else None
  }

  function MeasuredPlan(task: Task, i: nat): seq<Call> {
    if Measured(task, i).Some? then Measured(task, i).value else []
  }

  function Respond(driver: Driver, history: seq<Call>, call: Call): TimedResult {
    if call.Teardown? then TimedResult(0.0, true, None) else driver(history + [call])
  }

  const TORN_DOWN := Exchange(Teardown, TimedResult(0.0, true, None))

  // Carrying out a plan: make the calls in order, stop after the first failure.
  function Execute(driver: Driver, history: seq<Call>, plan: seq<Call>): seq<Exchange>
    decreases |plan|
  {
    if plan == [] then []
    else
      var r := Respond(driver, history, plan[0]);
      [Exchange(plan[0], r)] + if r.success then Execute(driver, history + [plan[0]], plan[1..]) else []
  }

  predicate AllOk(log: seq<Exchange>) {
    forall i :: 0 <= i < |log| ==> log[i].result.success
  }

  function TotalMs(log: seq<Exchange>): real {
    if log == [] then 0.0 else log[0].result.durationMs + TotalMs(log[1..])
  }

  function PrePlan(task: Task): seq<Call> {
    if PreNavigates(task) then [Navigate(task.url)] else []
  }

  function Plan(task: Task, i: nat): seq<Call> {
    PrePlan(task) + MeasuredPlan(task, i)
  }

  function Calls(log: seq<Exchange>): (r: seq<Call>)
    ensures |r| == |log| && forall i :: 0 <= i < |log| ==> r[i] == log[i].call
  {
    seq(|log|, i requires 0 <= i < |log| => log[i].call)
  }

  // Iteration i, after everything in `before`.
  function Attempt(driver: Driver, before: seq<Exchange>, task: Task, i: nat): seq<Exchange> {
    Execute(driver, Calls(before), Plan(task, i))
  }

  // Everything the driver has been asked once n iterations are over.
  function LogAfter(driver: Driver, before: seq<Exchange>, task: Task, n: nat): seq<Exchange> {
    if n == 0 then before
    else
      var log := LogAfter(driver, before, task, n - 1);
      log + Attempt(driver, log, task, n - 1)
  }

  // The error reported once the pre-navigation is over, given the measured calls made.
  function MeasuredError(task: Task, i: nat, made: seq<Exchange>): Option<Error> {
    if Measured(task, i).None? then Some(UnknownTask(task.id.name))
    else if task.id.Navigate10x? then (if AllOk(made) then None else Some(NavigationFailed))
    else if made == [] then None
    else made[|made| - 1].result.error
  }

  predicate PreFailed(task: Task, log: seq<Exchange>) {
    PreNavigates(task) && log != [] && !log[0].result.success
  }

  function MeasuredPart(task: Task, log: seq<Exchange>): seq<Exchange> {
    if PreNavigates(task) && log != [] then log[1..] else log
  }

  ghost predicate Summary(made: seq<Exchange>, result: TimedResult) {
    result.durationMs == TotalMs(made) && result.success == AllOk(made)
  }

  // The result entry of an iteration, given the calls it made.
  function Record(task: Task, i: nat, log: seq<Exchange>): Entry {
    if PreFailed(task, log) then Serialize(log[0].result)
    else
      var made := MeasuredPart(task, log);
      Serialize(TimedResult(TotalMs(made), Measured(task, i).Some? && AllOk(made), MeasuredError(task, i, made)))
  }

  // Entry i of a run that starts after `before`.
  function EntryOf(driver: Driver, before: seq<Exchange>, task: Task, i: nat): Entry {
    Record(task, i, Attempt(driver, LogAfter(driver, before, task, i), task, i))
  }

  // range(task.iterations)
  function Rounds(task: Task): nat {
    if task.iterations > 0 then task.iterations else 0
  }

  function Entries(driver: Driver, before: seq<Exchange>, task: Task, n: nat): (r: seq<Entry>)
    ensures |r| == n
  {
    Listing(i => EntryOf(driver, before, task, i), n)
  }

  lemma EntriesAt(driver: Driver, before: seq<Exchange>, task: Task, n: nat, i: nat)
    requires i < n
    ensures Entries(driver, before, task, n)[i] == EntryOf(driver, before, task, i)
  {
    ListingAt(k => EntryOf(driver, before, task, k), n);
  }

  // ---- facts about executing plans ----

  lemma AllOkCons(e: Exchange, rest: seq<Exchange>)
    ensures AllOk([e] + rest) <==> e.result.success && AllOk(rest)
  {
    var log := [e] + rest;
    if AllOk(log) {
      assert log[0] == e;
      forall i | 0 <= i < |rest| ensures rest[i].result.success {
        assert rest[i] == log[i + 1];
      }
    }
  }

  lemma {:induction false} ExecuteAppend(driver: Driver, history: seq<Call>, p: seq<Call>, q: seq<Call>)
    ensures var log := Execute(driver, history, p);
            Execute(driver, history, p + q) == if AllOk(log) then log + Execute(driver, history + p, q) else log
    decreases |p|
  {
    if p == [] {
      Units(q);
      Units(history);
      Units(Execute(driver, history, q));
    } else {
      var e := Exchange(p[0], Respond(driver, history, p[0]));
      var next := history + [p[0]];
      TailOfAppend(p, q);
      Units([e]);
      if e.result.success {
        var rest := Execute(driver, next, p[1..]);
        ExecuteAppend(driver, next, p[1..], q);
        HeadTail(p);
        Associative(history, [p[0]], p[1..]);
        AllOkCons(e, rest);
        Associative([e], rest, Execute(driver, history + p, q));
      } else {
        AllOkCons(e, []);
      }
    }
  }

  lemma {:induction false} TotalAppend(a: seq<Exchange>, b: seq<Exchange>)
    ensures TotalMs(a + b) == TotalMs(a) + TotalMs(b)
  {
    if a == [] {
      Units(b);
    } else {
      TailOfAppend(a, b);
      TotalAppend(a[1..], b);
    }
  }

  // An attempt follows its plan, every call but the last succeeded, and it is
  // cut short only by a failure.
  lemma {:induction false} ExecuteFollowsPlan(driver: Driver, history: seq<Call>, plan: seq<Call>)
    ensures var log := Execute(driver, history, plan);
            && |log| <= |plan|
            && (forall k :: 0 <= k < |log| - 1 ==> log[k].result.success)
            && (|log| < |plan| ==> log != [] && !log[|log| - 1].result.success)
    decreases |plan|
  {
    if plan != [] && Respond(driver, history, plan[0]).success {
      ExecuteFollowsPlan(driver, history + [plan[0]], plan[1..]);
    }
  }

  // Call k of an attempt is call k of its plan, answered after the ones before it.
  lemma {:induction false} ExecuteAsks(driver: Driver, history: seq<Call>, plan: seq<Call>, k: nat)
    requires k < |Execute(driver, history, plan)| <= |plan|
    ensures Execute(driver, history, plan)[k] == Exchange(plan[k], Respond(driver, history + plan[..k], plan[k]))
    decreases k
  {
    if k == 0 {
      Units(history);
      assert plan[..0] == [];
    } else {
      var next, rest := history + [plan[0]], plan[1..];
      ExecuteAsks(driver, next, rest, k - 1);
      HeadTail(plan);
      assert [plan[0]] + rest[..k - 1] == plan[..k];
      Associative(history, [plan[0]], rest[..k - 1]);
      ConsTail(Exchange(plan[0], Respond(driver, history, plan[0])), Execute(driver, next, rest));
    }
  }

  lemma ExecuteOne(driver: Driver, history: seq<Call>, a: Call)
    ensures Execute(driver, history, [a]) == [Exchange(a, Respond(driver, history, a))]
  {
    assert Execute(driver, history + [a], [a][1..]) == [];
  }

  // Teardown always goes through and takes no measured time.
  lemma ColdStartSplits(driver: Driver, start: seq<Call>, url: Option<string>)
    ensures var rest := Execute(driver, start + [Teardown], [Setup, Navigate(url)]);
            var made := Execute(driver, start, [Teardown, Setup, Navigate(url)]);
            && rest != [] && made == [TORN_DOWN] + rest && made[|made| - 1] == rest[|rest| - 1]
            && TotalMs(made) == TotalMs(rest) && (AllOk(made) <==> AllOk(rest))
  {
    var torn := TORN_DOWN;
    var rest := Execute(driver, start + [Teardown], [Setup, Navigate(url)]);
    assert [Teardown, Setup, Navigate(url)][1..] == [Setup, Navigate(url)];
    TotalAppend([torn], rest);
    TotalAppend([torn], []);
    AllOkCons(torn, rest);
  }

  // Serializing what the measured calls gave is recording the whole attempt.
  lemma RecordMeasured(driver: Driver, before: seq<Exchange>, task: Task, i: nat, result: TimedResult)
    requires var log := Attempt(driver, before, task, i);
             var made := MeasuredPart(task, log);
             && !PreFailed(task, log)
             && (Measured(task, i).Some? ==> Summary(made, result))
             && (Measured(task, i).None? ==> result.durationMs == 0.0 && !result.success && made == [])
             && result.error == MeasuredError(task, i, made)
    ensures Serialize(result) == Record(task, i, Attempt(driver, before, task, i))
  {
  }

  // An iteration is its pre-navigation, if any, followed unless that fails by
  // the measured calls.
  lemma AttemptSplits(driver: Driver, before: seq<Exchange>, task: Task, i: nat)
    ensures var log, start := Attempt(driver, before, task, i), Calls(before);
            if !PreNavigates(task) then log == Execute(driver, start, MeasuredPlan(task, i))
            else
              var nav := Navigate(task.url);
              var first := Exchange(nav, Respond(driver, start, nav));
              if first.result.success then
                log == [first] + Execute(driver, start + [nav], MeasuredPlan(task, i)) &&
                log[1..] == Execute(driver, start + [nav], MeasuredPlan(task, i))
              else log == [first]
  {
    var start, rest := Calls(before), MeasuredPlan(task, i);
    if PreNavigates(task) {
      var nav := Navigate(task.url);
      ExecuteOne(driver, start, nav);
      ExecuteAppend(driver, start, [nav], rest);
      var first := Exchange(nav, Respond(driver, start, nav));
      assert first.result.success ==> ([first] + Execute(driver, start + [nav], rest))[1..] == Execute(driver, start + [nav], rest);
    } else {
      assert [] + rest == rest;
    }
  }

  // ---- the code ----

  class Session {
    const driver: Driver
    var log: seq<Exchange>

    constructor (driver: Driver)
      ensures this.driver == driver && log == []
    {
      this.driver := driver;
      log := [];
    }

    method Do(call: Call) returns (r: TimedResult)
      requires !call.Teardown?
      modifies this
      ensures r == Respond(driver, old(Calls(log)), call)
      ensures log == old(log) + [Exchange(call, r)]
      ensures Execute(driver, old(Calls(log)), [call]) == [Exchange(call, r)]
      ensures Calls(log) == old(Calls(log)) + [call]
    {
      r := driver(Calls(log) + [call]);
      ExecuteOne(driver, Calls(log), call);
      log := log + [Exchange(call, r)];
    }

    // Two calls, the second made only if the first succeeds.
    method DoBoth(first: Call, second: Call) returns (result: TimedResult)
      requires !first.Teardown? && !second.Teardown?
      modifies this
      ensures var made := Execute(driver, old(Calls(log)), [first, second]);
              log == old(log) + made && made != [] && Summary(made, result) && result.error == made[|made| - 1].result.error
    {
      ghost var start := Calls(log);
      ExecuteAppend(driver, start, [first], [second]);
      assert [first] + [second] == [first, second];
      result := Do(first);
      TotalAppend([Exchange(first, result)], []);
      if result.success {
        var next := Do(second);
        TotalAppend([Exchange(first, result)], [Exchange(second, next)]);
        AllOkCons(Exchange(first, result), [Exchange(second, next)]);
        result := TimedResult(result.durationMs + next.durationMs, next.success, next.error);
      }
    }

    // The loop over the ten pages.
    method NavigateAll(urls: seq<string>) returns (totalMs: real, allOk: bool)
      modifies this
      ensures var made := Execute(driver, old(Calls(log)), NavCalls(urls));
              log == old(log) + made && totalMs == TotalMs(made) && allOk == AllOk(made)
    {
      ghost var start := Calls(log);
      totalMs, allOk := 0.0, true;
      for u := 0 to |urls|
        invariant allOk
        invariant log == old(log) + NavLog(driver, start, urls, u)
        invariant AllOk(NavLog(driver, start, urls, u)) && totalMs == TotalMs(NavLog(driver, start, urls, u))
        invariant Calls(log) == start + NavCalls(urls[..u])
      {
        NavStep(driver, start, urls, u);
        Associative(old(log), NavLog(driver, start, urls, u),
                    [Exchange(Navigate(Some(urls[u])), Respond(driver, Calls(log), Navigate(Some(urls[u]))))]);
        var nav := Do(Navigate(Some(urls[u])));
        totalMs := totalMs + nav.durationMs;
        if !nav.success {
          allOk := false;
          return;
        }
      }
      Units(urls);
    }

    // teardown() returns nothing and is not measured.
    method TearDown()
      modifies this
      ensures log == old(log) + [TORN_DOWN]
      ensures Calls(log) == old(Calls(log)) + [Teardown]
    {
      log := log + [TORN_DOWN];
    }

    method RunColdStart(url: Option<string>) returns (result: TimedResult)
      modifies this
      ensures var made := Execute(driver, old(Calls(log)), [Teardown, Setup, Navigate(url)]);
              log == old(log) + made && made != [] && Summary(made, result) && result.error == made[|made| - 1].result.error
    {
      ghost var before, start := log, Calls(log);
      TearDown();
      result := DoBoth(Setup, Navigate(url));
      ColdStartSplits(driver, start, url);
      Associative(before, [TORN_DOWN], Execute(driver, start + [Teardown], [Setup, Navigate(url)]));
    }

    method RunSingle(call: Call) returns (result: TimedResult)
      requires !call.Teardown?
      modifies this
      ensures var made := Execute(driver, old(Calls(log)), [call]);
              log == old(log) + made && made != [] && Summary(made, result) && result.error == made[|made| - 1].result.error
    {
      result := Do(call);
      TotalAppend([Exchange(call, result)], []);
    }

    // The branches that make one call.
    method RunOneCall(task: Task, i: nat) returns (result: TimedResult)
      requires SingleCall(task, i).Some?
      modifies this
      ensures var made := Execute(driver, old(Calls(log)), [SingleCall(task, i).value]);
              log == old(log) + made && made != [] && Summary(made, result) && result.error == made[|made| - 1].result.error
    {
      match task.id
      case NavigateComplex => result := RunSingle(Navigate(task.url));
      case SnapshotFull => result := RunSingle(Snapshot(false));
      case SnapshotInteractive => result := RunSingle(Snapshot(true));
      case ScreenshotPlain => result := RunSingle(Screenshot(i, false));
      case ScreenshotAnnotated => result := RunSingle(Screenshot(i, true));
      case EvalSimple => result := RunSingle(EvalJs(task.jsCode));
      case EvalComplex => result := RunSingle(EvalJs(task.jsCode));
    }

    // The branch on the task id.
    method RunMeasured(task: Task, i: nat) returns (result: TimedResult)
      modifies this
      ensures var made := Execute(driver, old(Calls(log)), MeasuredPlan(task, i));
              && log == old(log) + made
              && (Measured(task, i).Some? ==> Summary(made, result))
              && (Measured(task, i).None? ==> result.durationMs == 0.0 && !result.success)
              && result.error == MeasuredError(task, i, made)
    {
      match task.id
      case ColdStart => result := RunColdStart(task.url);
      case ClickWaitSnapshot => result := DoBoth(Click(task.selector), Snapshot(false));
      case Navigate10x(pages) =>
        var totalMs, allOk := NavigateAll(pages);
        result := TimedResult(totalMs, allOk, if allOk then None else Some(NavigationFailed));
      case StateSaveLoad => result := DoBoth(SaveState(i), LoadState(i));
      case Other(name) =>
        result := TimedResult(0.0, false, Some(UnknownTask(name)));
        Units(log);
      case _ => result := RunOneCall(task, i);
    }

    // One pass of the loop: the pre-navigation, then the measured calls.
    method RunIteration(task: Task, i: nat) returns (entry: Entry)
      modifies this
      ensures log == old(log) + Attempt(driver, old(log), task, i)
      ensures entry == Record(task, i, Attempt(driver, old(log), task, i))
    {
      AttemptSplits(driver, log, task, i);
      if PreNavigates(task) {
        var pre := Do(Navigate(task.url));
        if !pre.success {
          entry := Serialize(pre);
          return;
        }
        Associative(old(log), [Exchange(Navigate(task.url), pre)], Execute(driver, Calls(log), MeasuredPlan(task, i)));
      }
      var result := RunMeasured(task, i);
      entry := Serialize(result);
      RecordMeasured(driver, old(log), task, i, result);
    }

    // Iteration i of a run that started after `before`.
    method RunNext(ghost before: seq<Exchange>, task: Task, i: nat) returns (entry: Entry)
      requires log == LogAfter(driver, before, task, i)
      modifies this
      ensures log == LogAfter(driver, before, task, i + 1)
      ensures entry == EntryOf(driver, before, task, i)
    {
      entry := RunIteration(task, i);
    }

    method RunTask(task: Task) returns (results: seq<Entry>)
      modifies this
      ensures |results| == if task.iterations > 0 then task.iterations else 0
      ensures results == Entries(driver, old(log), task, Rounds(task))
      ensures log == LogAfter(driver, old(log), task, Rounds(task))
      ensures exists made ::
                TaskOutcome(driver, old(log), task, made, results) && log == old(log) + Joined(made, |made|)
    {
      results := [];
      for i := 0 to Rounds(task)
        invariant |results| == i
        invariant log == LogAfter(driver, old(log), task, i)
        invariant results == Entries(driver, old(log), task, i)
      {
        var entry := RunNext(old(log), task, i);
        results := results + [entry];
      }
      RunOutcome(driver, old(log), task);
      LogIsJoined(driver, old(log), task, Rounds(task), Rounds(task));
      assert TaskOutcome(driver, old(log), task, Attempts(driver, old(log), task, Rounds(task)), results);
    }
  }

  ghost function NavLog(driver: Driver, start: seq<Call>, urls: seq<string>, u: nat): seq<Exchange>
    requires u <= |urls|
  {
    Execute(driver, start, NavCalls(urls[..u]))
  }

  // One more page after u good ones; a failure ends the whole plan.
  lemma NavStep(driver: Driver, start: seq<Call>, urls: seq<string>, u: nat)
    requires u < |urls| && AllOk(NavLog(driver, start, urls, u))
    ensures var nav := Navigate(Some(urls[u]));
            var e := Exchange(nav, Respond(driver, start + NavCalls(urls[..u]), nav));
            var next := NavLog(driver, start, urls, u + 1);
            && start + NavCalls(urls[..u + 1]) == start + NavCalls(urls[..u]) + [nav]
            && next == NavLog(driver, start, urls, u) + [e]
            && TotalMs(next) == TotalMs(NavLog(driver, start, urls, u)) + e.result.durationMs
            && (AllOk(next) <==> e.result.success)
            && (!e.result.success ==> next == Execute(driver, start, NavCalls(urls)))
  {
    var nav, before := Navigate(Some(urls[u])), NavLog(driver, start, urls, u);
    var e := Exchange(nav, Respond(driver, start + NavCalls(urls[..u]), nav));
    NavCallsAppend(urls[..u], [urls[u]]);
    NavCallsOne(urls[u]);
    PrefixStep(urls, u);
    ExecuteAppend(driver, start, NavCalls(urls[..u]), [nav]);
    ExecuteOne(driver, start + NavCalls(urls[..u]), nav);
    TotalAppend(before, [e]);
    TotalAppend([e], []);
    Associative(start, NavCalls(urls[..u]), [nav]);
    assert (before + [e])[|before|] == e;
    if !e.result.success {
      NavCut(driver, start, urls, u + 1);
    }
  }

  lemma NavCut(driver: Driver, start: seq<Call>, urls: seq<string>, u: nat)
    requires u <= |urls| && !AllOk(NavLog(driver, start, urls, u))
    ensures Execute(driver, start, NavCalls(urls)) == NavLog(driver, start, urls, u)
  {
    NavCallsAppend(urls[..u], urls[u..]);
    assert urls[..u] + urls[u..] == urls;
    ExecuteAppend(driver, start, NavCalls(urls[..u]), NavCalls(urls[u..]));
  }

  lemma {:induction false} NavCallsAppend(a: seq<string>, b: seq<string>)
    ensures NavCalls(a + b) == NavCalls(a) + NavCalls(b)
  {
    if a == [] {
      Units(b);
      Units(NavCalls(b));
    } else {
      TailOfAppend(a, b);
      NavCallsAppend(a[1..], b);
      Associative([Navigate(Some(a[0]))], NavCalls(a[1..]), NavCalls(b));
    }
  }

  lemma NavCallsOne(url: string)
    ensures NavCalls([url]) == [Navigate(Some(url))]
  {
    assert [url][1..] == [] && NavCalls([]) == [];
  }

  // ---- the theorems about every iteration ----

  // The calls made follow the plan, none comes after a failure, and the plan is cut
  // short only by one.
  ghost predicate FollowsPlan(driver: Driver, history: seq<Call>, plan: seq<Call>, made: seq<Exchange>) {
    && |made| <= |plan|
    && (forall k :: 0 <= k < |made| - 1 ==> made[k].result.success)
    && (|made| < |plan| ==> made != [] && !made[|made| - 1].result.success)
    && (forall k :: 0 <= k < |made| ==> AskedAt(driver, history, plan, made, k))
  }

  // Call k is the plan's, answered after everything before it.
  ghost predicate AskedAt(driver: Driver, history: seq<Call>, plan: seq<Call>, made: seq<Exchange>, k: nat)
    requires k < |made| <= |plan|
  {
    made[k] == Exchange(plan[k], Respond(driver, history + plan[..k], plan[k]))
  }

  // Only one list of calls follows a plan.
  lemma FollowedOnce(driver: Driver, history: seq<Call>, plan: seq<Call>, a: seq<Exchange>, b: seq<Exchange>)
    requires FollowsPlan(driver, history, plan, a) && FollowsPlan(driver, history, plan, b)
    ensures a == b
  {
    forall k | 0 <= k < |a| && k < |b| ensures a[k] == b[k] {
      assert AskedAt(driver, history, plan, a, k) && AskedAt(driver, history, plan, b, k);
    }
    assert |a| == |b|;
  }

  // ---- what run_task promises, task by task ----

  // Whether an iteration opens the task's page first.
  predicate Opens(task: Task) {
    match task.id
    case ColdStart => false
    case NavigateComplex => false
    case _ => task.url.Some? && task.url.value != ""
  }

  // What an iteration asks of the driver while all goes well.
  function Script(task: Task, i: nat): seq<Call> {
    (if Opens(task) then [Navigate(task.url)] else []) +
    match task.id
    case ColdStart => [Teardown, Setup, Navigate(task.url)]
    case NavigateComplex => [Navigate(task.url)]
    case SnapshotFull => [Snapshot(false)]
    case SnapshotInteractive => [Snapshot(true)]
    case ScreenshotPlain => [Screenshot(i, false)]
    case ScreenshotAnnotated => [Screenshot(i, true)]
    case EvalSimple => [EvalJs(task.jsCode)]
    case EvalComplex => [EvalJs(task.jsCode)]
    case ClickWaitSnapshot => [Click(task.selector), Snapshot(false)]
    case Navigate10x(pages) => seq(|pages|, p requires 0 <= p < |pages| => Navigate(Some(pages[p])))
    case StateSaveLoad => [SaveState(i), LoadState(i)]
    case Other(_) => []
  }

  lemma {:induction false} NavCallsAre(pages: seq<string>)
    ensures NavCalls(pages) == seq(|pages|, p requires 0 <= p < |pages| => Navigate(Some(pages[p])))
  {
    if pages != [] { NavCallsAre(pages[1..]); }
  }

  // The plan the code carries out is the script.
  lemma PlanIsScript(task: Task, i: nat)
    ensures Plan(task, i) == Script(task, i)
    ensures PreNavigates(task) <==> Opens(task)
  {
    if task.id.Navigate10x? { NavCallsAre(task.id.pages); }
  }

  lemma PlanFollowed(driver: Driver, history: seq<Call>, plan: seq<Call>)
    ensures FollowsPlan(driver, history, plan, Execute(driver, history, plan))
  {
    var log := Execute(driver, history, plan);
    ExecuteFollowsPlan(driver, history, plan);
    forall k | 0 <= k < |log| ensures AskedAt(driver, history, plan, log, k) {
      ExecuteAsks(driver, history, plan, k);
    }
  }

  lemma IterationCalls(driver: Driver, before: seq<Exchange>, task: Task, i: nat)
    ensures FollowsPlan(driver, Calls(before), Script(task, i), Attempt(driver, before, task, i))
  {
    PlanIsScript(task, i);
    PlanFollowed(driver, Calls(before), Plan(task, i));
  }

  // The calls whose time is reported: all but an opening one that went well.
  function TimedCalls(task: Task, made: seq<Exchange>): seq<Exchange> {
    if Opens(task) && made != [] && made[0].result.success then made[1..] else made
  }

  // The last call's error, except that an unknown task and a failed page are
  // reported as such, and pages that went well as no error.
  function FinalError(task: Task, made: seq<Exchange>): Option<Error> {
    if task.id.Other? && AllOk(made) then Some(UnknownTask(task.id.name))
    else if task.id.Navigate10x? && AllOk(made) then None
    else if task.id.Navigate10x? && !(Opens(task) && |made| == 1) then Some(NavigationFailed)
    else if made == [] then None
    else made[|made| - 1].result.error
  }

  // An entry is a success iff the task is known and every call succeeded; its time
  // is the rounded sum of the timed calls; its error is the final one unless empty.
  ghost predicate Reports(task: Task, made: seq<Exchange>, e: Entry) {
    && (e.success <==> !task.id.Other? && AllOk(made))
    && e.durationMs == Round3(TotalMs(TimedCalls(task, made)))
    && e.error == (if FinalError(task, made) == Some(Reported("")) then None else FinalError(task, made))
  }

  lemma ReportsPrefailed(task: Task, i: nat, first: Exchange)
    requires PreNavigates(task) && !first.result.success
    ensures Reports(task, [first], Record(task, i, [first]))
  {
    PlanIsScript(task, i);
    TotalAppend([first], []);
    AllOkCons(first, []);
  }

  // The entry for what the measured calls gave, after the pre-navigation if any.
  lemma ReportsMeasured(task: Task, i: nat, made: seq<Exchange>)
    requires !PreFailed(task, made) && (PreNavigates(task) ==> made != [])
    requires var rest := MeasuredPart(task, made);
             if task.id.Other? then rest == [] else task.id.Navigate10x? || rest != []
    ensures Reports(task, made, Record(task, i, made))
  {
    PlanIsScript(task, i);
    if PreNavigates(task) {
      HeadTail(made);
      AllOkCons(made[0], made[1..]);
    }
  }

  lemma ExecuteSome(driver: Driver, history: seq<Call>, plan: seq<Call>)
    ensures Execute(driver, history, plan) == [] <==> plan == []
  {
  }

  lemma IterationResult(driver: Driver, before: seq<Exchange>, task: Task, i: nat)
    ensures var made := Attempt(driver, before, task, i);
            Reports(task, made, Record(task, i, made))
  {
    var made, start, plan := Attempt(driver, before, task, i), Calls(before), MeasuredPlan(task, i);
    AttemptSplits(driver, before, task, i);
    if PreFailed(task, made) {
      ReportsPrefailed(task, i, made[0]);
    } else {
      ExecuteSome(driver, if PreNavigates(task) then start + [Navigate(task.url)] else start, plan);
      ReportsMeasured(task, i, made);
    }
  }

  // What the iterations of a run asked, one stretch each.
  function Attempts(driver: Driver, before: seq<Exchange>, task: Task, n: nat): (r: seq<seq<Exchange>>)
    ensures |r| == n
  {
    Listing(i => Attempt(driver, LogAfter(driver, before, task, i), task, i), n)
  }

  lemma AttemptsAt(driver: Driver, before: seq<Exchange>, task: Task, n: nat, i: nat)
    requires i < n
    ensures Attempts(driver, before, task, n)[i] == Attempt(driver, LogAfter(driver, before, task, i), task, i)
  {
    ListingAt(k => Attempt(driver, LogAfter(driver, before, task, k), task, k), n);
  }

  function Logs(driver: Driver, before: seq<Exchange>, task: Task): nat -> seq<Exchange> {
    (k: nat) => LogAfter(driver, before, task, k)
  }

  lemma LogGrows(driver: Driver, before: seq<Exchange>, task: Task, n: nat, i: nat)
    requires i < n
    ensures Grows(Logs(driver, before, task), Attempts(driver, before, task, n), i)
  {
    AttemptsAt(driver, before, task, n, i);
  }

  lemma LogIsJoined(driver: Driver, before: seq<Exchange>, task: Task, m: nat, n: nat)
    requires m <= n
    ensures LogAfter(driver, before, task, m) == before + Joined(Attempts(driver, before, task, n), m)
  {
    forall i: nat | i < n ensures Grows(Logs(driver, before, task), Attempts(driver, before, task, n), i) {
      LogGrows(driver, before, task, n, i);
    }
    JoinedLog(Logs(driver, before, task), Attempts(driver, before, task, n), m);
  }

  // One stretch of calls and one entry an iteration: each stretch follows the task's
  // plan after everything asked before it, each entry reports its own stretch.
  ghost predicate TaskOutcome(driver: Driver, before: seq<Exchange>, task: Task, made: seq<seq<Exchange>>, results: seq<Entry>) {
    && |made| == |results| == (if task.iterations > 0 then task.iterations else 0)
    && forall i :: 0 <= i < |results| ==> IterationOutcome(driver, before, task, made, results, i)
  }

  ghost predicate IterationOutcome(driver: Driver, before: seq<Exchange>, task: Task, made: seq<seq<Exchange>>, results: seq<Entry>, i: nat)
    requires i < |made| == |results|
  {
    && FollowsPlan(driver, Calls(before + Joined(made, i)), Script(task, i), made[i])
    && Reports(task, made[i], results[i])
  }

  lemma OutcomeAt(driver: Driver, before: seq<Exchange>, task: Task, n: nat, i: nat)
    requires i < n
    ensures var made, results := Attempts(driver, before, task, n), Entries(driver, before, task, n);
            i < |made| == |results| && IterationOutcome(driver, before, task, made, results, i)
  {
    AttemptsAt(driver, before, task, n, i);
    EntriesAt(driver, before, task, n, i);
    LogIsJoined(driver, before, task, i, n);
    IterationCalls(driver, LogAfter(driver, before, task, i), task, i);
    IterationResult(driver, LogAfter(driver, before, task, i), task, i);
  }

  lemma RunOutcome(driver: Driver, before: seq<Exchange>, task: Task)
    ensures var n := Rounds(task);
            TaskOutcome(driver, before, task, Attempts(driver, before, task, n), Entries(driver, before, task, n))
  {
    var n := Rounds(task);
    var made, results := Attempts(driver, before, task, n), Entries(driver, before, task, n);
    forall i | 0 <= i < n ensures IterationOutcome(driver, before, task, made, results, i) {
      OutcomeAt(driver, before, task, n, i);
    }
  }

  lemma SameIteration(driver: Driver, before: seq<Exchange>, task: Task,
      a: seq<seq<Exchange>>, r: seq<Entry>, b: seq<seq<Exchange>>, q: seq<Entry>, i: nat)
    requires i < |a| == |r| && i < |b| == |q| && Joined(a, i) == Joined(b, i)
    requires IterationOutcome(driver, before, task, a, r, i) && IterationOutcome(driver, before, task, b, q, i)
    ensures a[i] == b[i] && r[i] == q[i]
  {
    FollowedOnce(driver, Calls(before + Joined(a, i)), Script(task, i), a[i], b[i]);
  }

  // That says everything about a run: there is only one such outcome.
  lemma OutcomeDetermined(driver: Driver, before: seq<Exchange>, task: Task,
      a: seq<seq<Exchange>>, r: seq<Entry>, b: seq<seq<Exchange>>, q: seq<Entry>)
    requires TaskOutcome(driver, before, task, a, r) && TaskOutcome(driver, before, task, b, q)
    ensures a == b && r == q
  {
    forall i: nat | i < |a| ensures SamePart(a, b, i) {
      if Joined(a, i) == Joined(b, i) {
        SameIteration(driver, before, task, a, r, b, q, i);
      }
    }
    forall i | 0 <= i < |a| ensures a[i] == b[i] && r[i] == q[i] {
      SameJoined(a, b, i);
      SameIteration(driver, before, task, a, r, b, q, i);
    }
  }

  // ---- one iteration, in figures ----

  lemma CallsOf(made: seq<Exchange>, plan: seq<Call>)
    requires |made| <= |plan| && forall k :: 0 <= k < |made| ==> made[k].call == plan[k]
    ensures Calls(made) == plan[..|made|]
  {
  }

  lemma AskedCall(driver: Driver, history: seq<Call>, plan: seq<Call>, made: seq<Exchange>, k: nat)
    requires k < |made| <= |plan| && AskedAt(driver, history, plan, made, k)
    ensures made[k].call == plan[k]
  {
  }

  lemma FollowedCalls(driver: Driver, history: seq<Call>, plan: seq<Call>, made: seq<Exchange>)
    requires FollowsPlan(driver, history, plan, made)
    ensures |made| <= |plan| && Calls(made) == plan[..|made|]
  {
    forall k | 0 <= k < |made| ensures made[k].call == plan[k] {
      AskedCall(driver, history, plan, made, k);
    }
    CallsOf(made, plan);
  }

  lemma FollowedToEnd(made: seq<Exchange>, n: nat)
    requires |made| <= n && forall k :: 0 <= k < |made| - 1 ==> made[k].result.success
    requires |made| < n ==> made != [] && !made[|made| - 1].result.success
    ensures AllOk(made) ==> |made| == n
    ensures !AllOk(made) ==> made != [] && !made[|made| - 1].result.success
  {
  }

  // What an iteration's outcome says, for a script given as a list.
  lemma OutcomeAsks(driver: Driver, before: seq<Exchange>, task: Task, made: seq<seq<Exchange>>, results: seq<Entry>, i: nat, script: seq<Call>)
    requires TaskOutcome(driver, before, task, made, results) && i < |results| && script == Script(task, i)
    ensures |made[i]| <= |script| && Calls(made[i]) == script[..|made[i]|]
    ensures AllOk(made[i]) ==> Calls(made[i]) == script
    ensures !AllOk(made[i]) ==> made[i] != [] && !made[i][|made[i]| - 1].result.success
  {
    assert IterationOutcome(driver, before, task, made, results, i);
    FollowedCalls(driver, Calls(before + Joined(made, i)), script, made[i]);
    FollowedToEnd(made[i], |script|);
    Units(script);
  }

  // When every call of iteration i succeeds, exactly the script has been asked.
  lemma IterationAsks(driver: Driver, before: seq<Exchange>, task: Task, made: seq<seq<Exchange>>, results: seq<Entry>, i: nat)
    requires TaskOutcome(driver, before, task, made, results) && i < |results|
    ensures |made[i]| <= |Script(task, i)| && Calls(made[i]) == Script(task, i)[..|made[i]|]
    ensures AllOk(made[i]) ==> Calls(made[i]) == Script(task, i)
    ensures !AllOk(made[i]) ==> made[i] != [] && !made[i][|made[i]| - 1].result.success
    ensures results[i].success <==> AllOk(made[i]) && !task.id.Other?
  {
    assert IterationOutcome(driver, before, task, made, results, i);
    OutcomeAsks(driver, before, task, made, results, i, Script(task, i));
  }

  // A cold start is charged for setup and navigation only, the complex navigation
  // for its one call, any other task on a page for what it does once that is open.
  lemma IterationTimes(driver: Driver, before: seq<Exchange>, task: Task, made: seq<seq<Exchange>>, results: seq<Entry>, i: nat)
    requires TaskOutcome(driver, before, task, made, results) && i < |results|
    ensures task.id.ColdStart? ==>
              |made[i]| >= 2 && results[i].durationMs ==
              Round3(made[i][1].result.durationMs + if |made[i]| == 3 then made[i][2].result.durationMs else 0.0)
    ensures task.id.NavigateComplex? ==> |made[i]| == 1 && results[i].durationMs == Round3(made[i][0].result.durationMs)
    ensures !task.id.ColdStart? && !task.id.NavigateComplex? ==>
              results[i].durationMs == Round3(
                if task.url == None || task.url == Some("") then TotalMs(made[i])
                else if made[i] != [] && made[i][0].result.success then TotalMs(made[i][1..])
                else TotalMs(made[i]))
  {
    var m := made[i];
    assert IterationOutcome(driver, before, task, made, results, i);
    if task.id.ColdStart? {
      assert AskedAt(driver, Calls(before + Joined(made, i)), Script(task, i), m, 0);
      assert m[0] == TORN_DOWN;
      TotalThree(m);
    } else {
      TotalThree(TimedCalls(task, m));
    }
  }

  lemma TotalThree(s: seq<Exchange>)
    ensures |s| == 1 ==> TotalMs(s) == s[0].result.durationMs
    ensures |s| == 2 ==> TotalMs(s) == s[0].result.durationMs + s[1].result.durationMs
    ensures |s| == 3 ==> TotalMs(s) == s[0].result.durationMs + s[1].result.durationMs + s[2].result.durationMs
  {
    if |s| >= 1 { assert s[1..] == [] || TotalMs(s[1..]) == s[1].result.durationMs + TotalMs(s[1..][1..]); }
    if |s| == 3 { assert s[1..][1..] == [s[2]]; assert [s[2]][1..] == []; }
    if |s| == 2 { assert s[1..][1..] == []; }
  }
}
