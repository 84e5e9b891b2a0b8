/**
  Process-wide state of the library: the API version latch behind cef_api_hash
  and the name maps built on first use.
 */
module ApiVersion {
  import opened OptionType

  datatype VersionHash = VersionHash(version: int, hash: string)

  // The constants compiled in: the version table and two hashes.
  datatype Build = Build(table: seq<VersionHash>, commitHash: string, sandboxHash: string)

  datatype Call = Call(version: int, entry: int)

  // The first row of the table for a version.
  function FindVersion(table: seq<VersionHash>, version: int): Option<VersionHash> {
    if table == [] then None
    else if table[0].version == version then Some(table[0])
    else FindVersion(table[1..], version)
  }

  // ---- one call as a step ----

  datatype State = State(current: Option<VersionHash>, version: int)

  const INIT := State(None, -1)

  function Next(build: Build, s: State, c: Call): State {
    if s.current.None? && FindVersion(build.table, c.version).Some? then
      State(FindVersion(build.table, c.version), c.version)
    else s
  }

  // The answer given in the state the call leaves.
  function AnswerIn(build: Build, s: State, c: Call): Option<string> {
    if s.current.None? || c.version != s.version then None
    else if c.entry == 0 || c.entry == 1 then Some(s.current.value.hash)
    else if c.entry == 2 then Some(build.commitHash)
    else if c.entry == 3 then Some(build.sandboxHash)
    else None
  }

  function After(build: Build, calls: seq<Call>, n: nat): State
    requires n <= |calls|
  {
    if n == 0 then INIT else Next(build, After(build, calls, n - 1), calls[n - 1])
  }

  lemma {:induction false} AfterPrefix(build: Build, calls: seq<Call>, c: Call, n: nat)
    requires n <= |calls|
    ensures After(build, calls + [c], n) == After(build, calls, n)
  {
    if n > 0 { AfterPrefix(build, calls, c, n - 1); }
  }

  lemma AfterSnoc(build: Build, calls: seq<Call>, c: Call)
    ensures After(build, calls + [c], |calls| + 1) == Next(build, After(build, calls, |calls|), c)
  {
    AfterPrefix(build, calls, c, |calls|);
  }

  // ---- the history's view: no state ----

  predicate Supported(build: Build, version: int) {
    exists i :: 0 <= i < |build.table| && build.table[i].version == version
  }

  // Call k is the first to ask for a version in the table.
  ghost predicate Configures(build: Build, calls: seq<Call>, k: nat) {
    && k < |calls| && Supported(build, calls[k].version)
    && forall i :: 0 <= i < k ==> !Supported(build, calls[i].version)
  }

  ghost predicate NoneSupported(build: Build, calls: seq<Call>, n: nat)
    requires n <= |calls|
  {
    forall i :: 0 <= i < n ==> !Supported(build, calls[i].version)
  }

  ghost predicate FirstRow(build: Build, version: int, row: VersionHash) {
    exists i :: 0 <= i < |build.table| && build.table[i] == row && row.version == version
      && forall j :: 0 <= j < i ==> build.table[j].version != version
  }

  lemma {:induction false} FindVersionFinds(table: seq<VersionHash>, version: int)
    ensures FindVersion(table, version).Some? <==> exists i :: 0 <= i < |table| && table[i].version == version
    ensures FindVersion(table, version).Some? ==>
              exists i :: 0 <= i < |table| && table[i] == FindVersion(table, version).value && table[i].version == version
                && forall j :: 0 <= j < i ==> table[j].version != version
  {
    if table != [] && table[0].version != version {
      var rest := table[1..];
      FindVersionFinds(rest, version);
      if FindVersion(rest, version).Some? {
        var i :| 0 <= i < |rest| && rest[i] == FindVersion(rest, version).value && rest[i].version == version
          && forall j :: 0 <= j < i ==> rest[j].version != version;
        assert table[i + 1] == rest[i];
        forall j | 0 <= j < i + 1 ensures table[j].version != version {
          if j > 0 { assert table[j] == rest[j - 1]; }
        }
      } else {
        forall i | 0 <= i < |table| ensures table[i].version != version {
          if i > 0 { assert table[i] == rest[i - 1]; }
        }
      }
    }
  }

  // The configured version is the first requested one the table has; until one
  // comes nothing is configured.
  lemma {:induction false} LatchExactly(build: Build, calls: seq<Call>, n: nat)
    requires n <= |calls|
    ensures var s := After(build, calls, n);
            && (s.current.None? <==> NoneSupported(build, calls, n))
            && (s.current.None? ==> s.version == -1)
            && (s.current.Some? ==>
                  FirstRow(build, s.version, s.current.value) &&
                  exists k :: 0 <= k < n && Configures(build, calls, k) && s.version == calls[k].version)
  {
    if n > 0 {
      LatchExactly(build, calls, n - 1);
      FindVersionFinds(build.table, calls[n - 1].version);
      var s := After(build, calls, n - 1);
      if s.current.None? && Supported(build, calls[n - 1].version) {
        assert Configures(build, calls, n - 1);
      }
    }
  }

  // Once configured the version never changes.
  lemma {:induction false} LatchHolds(build: Build, calls: seq<Call>, m: nat, n: nat)
    requires m <= n <= |calls| && After(build, calls, m).current.Some?
    ensures After(build, calls, n) == After(build, calls, m)
  {
    if m < n { LatchHolds(build, calls, m, n - 1); }
  }

  lemma ConfiguredBy(build: Build, calls: seq<Call>, n: nat, k: nat)
    requires n <= |calls| && Configures(build, calls, k)
    ensures n > k <==> After(build, calls, n).current.Some?
    ensures n > k ==> After(build, calls, n).version == calls[k].version
  {
    LatchExactly(build, calls, n);
    var s := After(build, calls, n);
    if s.current.Some? {
      var l :| 0 <= l < n && Configures(build, calls, l) && s.version == calls[l].version;
      assert l == k;
    }
  }

  // Every answer is a function of the calls so far: non-null exactly when the
  // call asks for the version the history configured and one of four entries.
  lemma AnswerExactly(build: Build, calls: seq<Call>, n: nat, k: nat)
    requires n < |calls| && Configures(build, calls, k)
    ensures var c, answer := calls[n], AnswerIn(build, After(build, calls, n + 1), calls[n]);
            && (answer.Some? <==> n >= k && c.version == calls[k].version && 0 <= c.entry <= 3)
            && (answer.Some? && c.entry <= 1 ==> exists row :: FirstRow(build, calls[k].version, row) && answer.value == row.hash)
            && (answer.Some? && c.entry == 2 ==> answer.value == build.commitHash)
            && (answer.Some? && c.entry == 3 ==> answer.value == build.sandboxHash)
  {
    LatchExactly(build, calls, n + 1);
    ConfiguredBy(build, calls, n + 1, k);
  }

  lemma NoAnswerUnconfigured(build: Build, calls: seq<Call>, n: nat)
    requires n < |calls| && NoneSupported(build, calls, n + 1)
    ensures AnswerIn(build, After(build, calls, n + 1), calls[n]) == None
  {
    LatchExactly(build, calls, n + 1);
  }

  // The header documents that the first call configures the version. That holds
  // of a history exactly when its first call is supported or none is.
  lemma FirstCallConfiguresExactly(build: Build, calls: seq<Call>)
    requires calls != []
    ensures (forall n :: 0 < n <= |calls| ==> After(build, calls, n) == After(build, calls, 1)) <==>
            Supported(build, calls[0].version) || NoneSupported(build, calls, |calls|)
  {
    LatchExactly(build, calls, 1);
    LatchExactly(build, calls, |calls|);
    if Supported(build, calls[0].version) {
      forall n | 0 < n <= |calls| ensures After(build, calls, n) == After(build, calls, 1) {
        LatchHolds(build, calls, 1, n);
      }
    } else if NoneSupported(build, calls, |calls|) {
      forall n | 0 < n <= |calls| ensures After(build, calls, n) == After(build, calls, 1) {
        LatchExactly(build, calls, n);
      }
    }
  }

  // An unsupported first request does not use up the latch.
  lemma SecondCallConfigures(hash: string)
    ensures var build := Build([VersionHash(13300, hash)], "", "");
            After(build, [Call(1, 0), Call(13300, 0)], 2).version == 13300
  {
    var build := Build([VersionHash(13300, hash)], "", "");
    var calls := [Call(1, 0), Call(13300, 0)];
    assert build.table[1..] == [] && FindVersion(build.table, 1) == None;
    assert After(build, calls, 1) == Next(build, INIT, calls[0]);
  }

  // ---- the code ----

  class Library {
    const build: Build
    var currentVersionHash: Option<VersionHash>
    var gVersion: int
    // every cef_api_hash call so far
    ghost var calls: seq<Call>

    // The two statics are what the calls so far have made of them.
    ghost predicate Valid()
      reads this
    {
      State(currentVersionHash, gVersion) == After(build, calls, |calls|)
    }

    constructor (build: Build)
      ensures Valid() && this.build == build && calls == []
    {
      this.build := build;
      currentVersionHash, gVersion, calls := None, -1, [];
    }

    method ApiHash(version: int, entry: int) returns (answer: Option<string>)
      requires Valid()
      modifies this
      ensures Valid() && calls == old(calls) + [Call(version, entry)]
      ensures State(currentVersionHash, gVersion) == Next(build, old(State(currentVersionHash, gVersion)), Call(version, entry))
      ensures answer == AnswerIn(build, State(currentVersionHash, gVersion), Call(version, entry))
    {
      AfterSnoc(build, calls, Call(version, entry));
      calls := calls + [Call(version, entry)];
      if currentVersionHash.None? {
        var i := 0;
        while i < |build.table|
          invariant 0 <= i <= |build.table|
          invariant FindVersion(build.table, version) == FindVersion(build.table[i..], version)
          invariant currentVersionHash.None? && gVersion == old(gVersion)
          invariant calls == old(calls) + [Call(version, entry)]
        {
          if version == build.table[i].version {
            currentVersionHash := Some(build.table[i]);
            break;
          }
          i := i + 1;
        }
        if currentVersionHash.Some? {
          gVersion := version;
        }
      }
      if currentVersionHash.None? {
        return None;
      }
      if version != gVersion {
        return None;
      }
      match entry
      case 0 => answer := Some(currentVersionHash.value.hash);
      case 1 => answer := Some(currentVersionHash.value.hash);
      case 2 => answer := Some(build.commitHash);
      case 3 => answer := Some(build.sandboxHash);
      case _ => answer := None;
    }

    // The version the calls so far configured, -1 while they have configured none.
    method Version() returns (v: int)
      requires Valid()
      ensures NoneSupported(build, calls, |calls|) ==> v == -1
      ensures forall k: nat :: Configures(build, calls, k) ==> v == calls[k].version
    {
      LatchExactly(build, calls, |calls|);
      forall k: nat | Configures(build, calls, k) ensures gVersion == calls[k].version {
        ConfiguredBy(build, calls, |calls|, k);
      }
      v := gVersion;
    }
  }
}

/** The lazily built name maps (pack resources, pack strings, command ids). */
module NameIndex {
  import opened OptionType

  datatype IdName = IdName(name: string, id: int)

  // The answer a scan from the end of the table gives: the last duplicate wins.
  function ScanFromEnd(table: seq<IdName>, name: string): int {
    if table == [] then -1
    else if table[|table| - 1].name == name then table[|table| - 1].id
    else ScanFromEnd(table[..|table| - 1], name)
  }

  ghost function MapOf(table: seq<IdName>): map<string, int> {
    if table == [] then map[] else MapOf(table[..|table| - 1])[table[|table| - 1].name := table[|table| - 1].id]
  }

  lemma {:induction false} MapIsScan(table: seq<IdName>, name: string)
    ensures (if name in MapOf(table) then MapOf(table)[name] else -1) == ScanFromEnd(table, name)
    ensures name in MapOf(table) <==> exists i :: 0 <= i < |table| && table[i].name == name
  {
    if table != [] {
      var n := |table| - 1;
      MapIsScan(table[..n], name);
      assert forall i :: 0 <= i < n ==> table[..n][i] == table[i];
      if table[n].name != name && name in MapOf(table[..n]) {
        var i :| 0 <= i < n && table[..n][i].name == name;
        assert table[i].name == name;
      }
    }
  }

  class LazyIndex {
    const table: seq<IdName>
    var stringToId: map<string, int>

    // Empty until the first lookup, complete from then on.
    ghost predicate Valid()
      reads this
    {
      stringToId == map[] || stringToId == MapOf(table)
    }

    constructor (table: seq<IdName>)
      ensures Valid() && this.table == table
    {
      this.table := table;
      stringToId := map[];
    }

    method IdFor(name: string) returns (id: int)
      requires Valid()
      modifies this
      ensures Valid() && stringToId == MapOf(table)
      ensures id == ScanFromEnd(table, name)
    {
      if stringToId == map[] {
        for i := 0 to |table|
          invariant stringToId == MapOf(table[..i])
        {
          assert table[..i + 1][..i] == table[..i];
          stringToId := stringToId[table[i].name := table[i].id];
        }
        assert table[..|table|] == table;
      }
      MapIsScan(table, name);
      if name in stringToId {
        return stringToId[name];
      }
      return -1;
    }
  }

  // A name gets -1 when it is absent, and the id of its last row otherwise.
  lemma {:induction false} LastDuplicateWins(table: seq<IdName>, name: string, k: nat)
    requires k < |table| && table[k].name == name && forall i :: k < i < |table| ==> table[i].name != name
    ensures ScanFromEnd(table, name) == table[k].id
  {
    if k < |table| - 1 { LastDuplicateWins(table[..|table| - 1], name, k); }
  }

  lemma {:induction false} AbsentIsMinusOne(table: seq<IdName>, name: string)
    requires forall i :: 0 <= i < |table| ==> table[i].name != name
    ensures ScanFromEnd(table, name) == -1
  {
    if table != [] { AbsentIsMinusOne(table[..|table| - 1], name); }
  }
}
