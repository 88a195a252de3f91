/** What every run of the audit plan guarantees, over all specs, selections and outcomes. */
module SchedulerSafety {
  import opened Wrappers
  import opened Scheduler

  function PlanIds(preflightIds: seq<string>, specs: seq<CheckSpec>): seq<string> {
    preflightIds + SpecIds(specs)
  }

  /** The records of a complete run, as the runner leaves them. */
  ghost predicate IsRun(
    preflightIds: seq<string>, specs: seq<CheckSpec>, selected: set<string>, world: World, records: seq<Record>)
  {
    var p := |preflightIds|;
    && |records| == p + |specs|
    && ArePreflightRecords(records[..p], preflightIds, specs, selected, world)
    && records == RecordsAfter(records[..p], specs, selected, world, |specs|)
  }

  /** The record of each command was made from the records before it. */
  lemma {:induction false} RecordAt(
    preflight: seq<Record>, specs: seq<CheckSpec>, selected: set<string>, world: World, n: nat, k: nat)
    requires k < n <= |specs|
    ensures var records := RecordsAfter(preflight, specs, selected, world, n);
      var i := |preflight| + k;
      records[..i] == RecordsAfter(preflight, specs, selected, world, k)
      && records[i] == CommandRecord(specs[k], records[..i], selected, world)
    decreases n
  {
    hide CommandRecord;
    var earlier := RecordsAfter(preflight, specs, selected, world, n - 1);
    var records := RecordsAfter(preflight, specs, selected, world, n);
    if k == n - 1 {
      assert records[..|preflight| + k] == earlier;
    } else {
      RecordAt(preflight, specs, selected, world, n - 1, k);
      assert records[..|preflight| + k] == earlier[..|preflight| + k];
    }
  }

  lemma CommandAt(
    preflightIds: seq<string>, specs: seq<CheckSpec>, selected: set<string>, world: World, records: seq<Record>,
    k: nat)
    requires IsRun(preflightIds, specs, selected, world, records) && k < |specs|
    ensures var i := |preflightIds| + k; records[i] == CommandRecord(specs[k], records[..i], selected, world)
  {
    hide CommandRecord;
    RecordAt(records[..|preflightIds|], specs, selected, world, |specs|, k);
  }

  lemma PreflightAt(
    preflightIds: seq<string>, specs: seq<CheckSpec>, selected: set<string>, world: World, records: seq<Record>,
    k: nat)
    requires IsRun(preflightIds, specs, selected, world, records) && k < |preflightIds|
    ensures IsPreflightRecord(records[k], preflightIds[k], specs, selected, world)
  {
    hide IsPreflightRecord;
    assert records[..|preflightIds|][k] == records[k];
  }

  /** Every check of the plan has one record, in plan order, and it is not run iff it was not selected. */
  lemma OneRecordPerCheck(
    preflightIds: seq<string>, specs: seq<CheckSpec>, selected: set<string>, world: World, records: seq<Record>)
    requires IsRun(preflightIds, specs, selected, world, records)
    ensures |records| == |PlanIds(preflightIds, specs)|
    ensures forall i :: 0 <= i < |records| ==> records[i].id == PlanIds(preflightIds, specs)[i]
    ensures forall i :: 0 <= i < |records| ==> (records[i].status == NotRun <==> records[i].id !in selected)
  {
    hide NeedsPassed, NotPassed, DependsOn;
    forall i | 0 <= i < |records|
      ensures records[i].id == PlanIds(preflightIds, specs)[i]
      ensures records[i].status == NotRun <==> records[i].id !in selected
    {
      if i < |preflightIds| {
        PreflightAt(preflightIds, specs, selected, world, records, i);
      } else {
        CommandAt(preflightIds, specs, selected, world, records, i - |preflightIds|);
      }
    }
  }

  /** A check that ran: its own outcome is on record. */
  predicate WasLaunched(record: Record) {
    record.isCommand && record.origin == Ran
  }

  lemma PassedCommandWasLaunched(
    preflightIds: seq<string>, specs: seq<CheckSpec>, selected: set<string>, world: World, records: seq<Record>,
    k: nat)
    requires IsRun(preflightIds, specs, selected, world, records) && k < |specs|
    ensures records[|preflightIds| + k].status == Passed ==> WasLaunched(records[|preflightIds| + k])
  {
    CommandAt(preflightIds, specs, selected, world, records, k);
  }

  // ----- prerequisites -----

  ghost predicate PassedBefore(records: seq<Record>, i: nat, id: string) {
    exists j :: 0 <= j < i && j < |records| && records[j].id == id && records[j].status == Passed
  }

  /** `path` runs from a check to one of its transitive prerequisites. */
  ghost predicate IsNeedsPath(specs: seq<CheckSpec>, path: seq<string>) {
    |path| >= 2 && forall i: nat :: i + 1 < |path| ==> IsNeed(specs, path[i], path[i + 1])
  }

  ghost predicate IsNeed(specs: seq<CheckSpec>, id: string, need: string) {
    exists s :: s in specs && s.checkId == id && need in s.needs
  }

  lemma PassedInPrefix(records: seq<Record>, i: nat, id: string)
    requires i <= |records| && HasPassed(records[..i], id)
    ensures PassedBefore(records, i, id)
  {
    var j :| 0 <= j < |records[..i]| && records[..i][j].id == id && records[..i][j].status == Passed;
    assert records[j] == records[..i][j];
  }

  lemma DirectNeedsPassed(
    preflightIds: seq<string>, specs: seq<CheckSpec>, selected: set<string>, world: World, records: seq<Record>,
    k: nat)
    requires IsRun(preflightIds, specs, selected, world, records) && k < |specs|
    requires WasLaunched(records[|preflightIds| + k])
    ensures forall need :: need in specs[k].needs ==> PassedBefore(records, |preflightIds| + k, need)
  {
    hide StatusOf, NotPassed;
    var i := |preflightIds| + k;
    CommandAt(preflightIds, specs, selected, world, records, k);
    forall need | need in specs[k].needs ensures PassedBefore(records, i, need) {
      var n :| 0 <= n < |specs[k].needs| && specs[k].needs[n] == need;
      assert HasPassed(records[..i], specs[k].needs[n]);
      PassedInPrefix(records, i, need);
    }
  }

  /** With distinct ids, the record of a spec's id is the record of that spec. */
  lemma SpecOfRecord(
    preflightIds: seq<string>, specs: seq<CheckSpec>, selected: set<string>, world: World, records: seq<Record>,
    i: nat, s: CheckSpec)
    returns (k: nat)
    requires IsRun(preflightIds, specs, selected, world, records) && Distinct(PlanIds(preflightIds, specs))
    requires i < |records| && s in specs && records[i].id == s.checkId
    ensures k < |specs| && i == |preflightIds| + k && specs[k] == s
  {
    OneRecordPerCheck(preflightIds, specs, selected, world, records);
    k :| 0 <= k < |specs| && specs[k] == s;
    var ids := PlanIds(preflightIds, specs);
    assert ids[|preflightIds| + k] == s.checkId == ids[i];
  }

  /**
   Launch safety: when a command is launched, every transitive prerequisite its
   spec declares has already passed earlier in the same run.
   */
  lemma {:induction false} LaunchedAfterPrerequisites(
    preflightIds: seq<string>, specs: seq<CheckSpec>, selected: set<string>, world: World, records: seq<Record>, i: nat,
    path: seq<string>)
    requires IsRun(preflightIds, specs, selected, world, records) && Distinct(PlanIds(preflightIds, specs))
    requires i < |records| && WasLaunched(records[i])
    requires IsNeedsPath(specs, path) && path[0] == records[i].id
    ensures PassedBefore(records, i, path[|path| - 1])
    decreases |path|
  {
    hide IsRun, Distinct, PlanIds, IsNeed;
    assert IsNeed(specs, path[0], path[1]);
    var s := SpecNeeding(specs, path[0], path[1]);
    var k := SpecOfRecord(preflightIds, specs, selected, world, records, i, s);
    DirectNeedsPassed(preflightIds, specs, selected, world, records, k);
    assert PassedBefore(records, i, path[1]);
    if |path| > 2 {
      var j :| 0 <= j < i && records[j].id == path[1] && records[j].status == Passed;
      assert IsNeed(specs, path[1], path[2]);
      var t := SpecNeeding(specs, path[1], path[2]);
      var kt := SpecOfRecord(preflightIds, specs, selected, world, records, j, t);
      PassedCommandWasLaunched(preflightIds, specs, selected, world, records, kt);
      var rest := path[1..];
      forall m: nat | m + 1 < |rest| ensures IsNeed(specs, rest[m], rest[m + 1]) {
        assert IsNeed(specs, path[m + 1], path[(m + 1) + 1]);
      }
      LaunchedAfterPrerequisites(preflightIds, specs, selected, world, records, j, rest);
    }
  }

  lemma SpecNeeding(specs: seq<CheckSpec>, id: string, need: string) returns (s: CheckSpec)
    requires IsNeed(specs, id, need)
    ensures s in specs && s.checkId == id && need in s.needs
  {
    s :| s in specs && s.checkId == id && need in s.needs;
  }

  // ----- when a command is launched -----

  /** Every prerequisite stands earlier in the plan. */
  ghost predicate IsTopological(preflightIds: seq<string>, specs: seq<CheckSpec>) {
    forall k, need :: 0 <= k < |specs| && need in specs[k].needs ==>
      need in PlanIds(preflightIds, specs)[..|preflightIds| + k]
  }

  ghost predicate AllTransitiveNeedsPassed(specs: seq<CheckSpec>, records: seq<Record>, id: string) {
    forall path :: IsNeedsPath(specs, path) && path[0] == id ==> PassedBefore(records, |records|, path[|path| - 1])
  }

  /** On a topologically ordered plan a selected command is launched iff all its transitive prerequisites pass. */
  lemma LaunchedIffPrerequisitesPass(
    preflightIds: seq<string>, specs: seq<CheckSpec>, selected: set<string>, world: World, records: seq<Record>, k: nat)
    requires IsRun(preflightIds, specs, selected, world, records) && Distinct(PlanIds(preflightIds, specs))
    requires IsTopological(preflightIds, specs) && k < |specs|
    ensures WasLaunched(records[|preflightIds| + k]) <==>
      specs[k].checkId in selected && AllTransitiveNeedsPassed(specs, records, specs[k].checkId)
  {
    var i := |preflightIds| + k;
    var id := specs[k].checkId;
    OneRecordPerCheck(preflightIds, specs, selected, world, records);
    CommandAt(preflightIds, specs, selected, world, records, k);
    hide IsRun, IsNeedsPath, StatusOf, NotPassed, NeedsPassed;
    if WasLaunched(records[i]) {
      forall path | IsNeedsPath(specs, path) && path[0] == id
        ensures PassedBefore(records, |records|, path[|path| - 1])
      {
        LaunchedAfterPrerequisites(preflightIds, specs, selected, world, records, i, path);
      }
    }
    if id in selected && AllTransitiveNeedsPassed(specs, records, id) {
      AllNeedsPassed(preflightIds, specs, selected, world, records, k);
    }
  }

  lemma AllNeedsPassed(
    preflightIds: seq<string>, specs: seq<CheckSpec>, selected: set<string>, world: World, records: seq<Record>, k: nat)
    requires IsRun(preflightIds, specs, selected, world, records) && Distinct(PlanIds(preflightIds, specs))
    requires IsTopological(preflightIds, specs) && k < |specs|
    requires AllTransitiveNeedsPassed(specs, records, specs[k].checkId)
    ensures NeedsPassed(specs[k], records[..|preflightIds| + k])
  {
    OneRecordPerCheck(preflightIds, specs, selected, world, records);
    hide IsRun, StatusOf, IsTopological, IsNeedsPath, PlanIds;
    var i := |preflightIds| + k;
    forall n | 0 <= n < |specs[k].needs| ensures HasPassed(records[..i], specs[k].needs[n]) {
      var path := PathToNeed(specs, k, n);
      assert PassedBefore(records, |records|, path[|path| - 1]);
      var j :| 0 <= j < |records| && records[j].id == specs[k].needs[n] && records[j].status == Passed;
      var m := NeedIsEarlier(preflightIds, specs, k, n);
      assert j == m;
      PassedIsFound(records, i, j);
    }
  }

  lemma PathToNeed(specs: seq<CheckSpec>, k: nat, n: nat) returns (path: seq<string>)
    requires k < |specs| && n < |specs[k].needs|
    ensures IsNeedsPath(specs, path) && path[0] == specs[k].checkId && path[|path| - 1] == specs[k].needs[n]
  {
    path := [specs[k].checkId, specs[k].needs[n]];
    assert specs[k] in specs && IsNeed(specs, path[0], path[1]);
  }

  lemma NeedIsEarlier(preflightIds: seq<string>, specs: seq<CheckSpec>, k: nat, n: nat) returns (m: nat)
    requires IsTopological(preflightIds, specs) && k < |specs| && n < |specs[k].needs|
    ensures m < |preflightIds| + k && m < |PlanIds(preflightIds, specs)|
      && PlanIds(preflightIds, specs)[m] == specs[k].needs[n]
  {
    var i, ids := |preflightIds| + k, PlanIds(preflightIds, specs);
    assert specs[k].needs[n] in specs[k].needs;
    m :| 0 <= m < i && ids[m] == specs[k].needs[n];
  }

  /** With distinct ids a passed record in a prefix is what the lookup finds. */
  lemma PassedIsFound(records: seq<Record>, i: nat, j: nat)
    requires j < i <= |records| && records[j].status == Passed
    requires forall a, b :: 0 <= a < b < |records| ==> records[a].id != records[b].id
    ensures HasPassed(records[..i], records[j].id)
  {
    var prefix := records[..i];
    var found := StatusOf(prefix, records[j].id);
    assert prefix[j] == records[j];
    if found.Some? {
      var a :| 0 <= a < |prefix| && prefix[a].id == records[j].id && prefix[a].status == found.value;
      assert records[a] == prefix[a];
    }
  }

  // ----- what a blocked input blocks -----

  /**
   When a check has not passed, everything selected that depends on it, directly
   or through other checks, is recorded as blocked by a prerequisite.
   */
  lemma {:induction false} DependantsAreBlocked(
    preflightIds: seq<string>, specs: seq<CheckSpec>, selected: set<string>, world: World, records: seq<Record>,
    source: string, path: seq<CheckSpec>)
    requires IsRun(preflightIds, specs, selected, world, records) && Distinct(PlanIds(preflightIds, specs))
    requires !PassedBefore(records, |records|, source)
    requires IsDependencyPath(specs, source, path)
    ensures !PassedBefore(records, |records|, path[|path| - 1].checkId)
    ensures forall i :: 0 <= i < |records| && records[i].id == path[|path| - 1].checkId && records[i].id in selected ==>
      records[i].status == Blocked && records[i].origin.PrerequisiteNotPassed?
    decreases |path|
  {
    var last := path[|path| - 1];
    assert last in path;
    var need := source;
    if |path| > 1 {
      var init := path[..|path| - 1];
      assert forall s :: s in init ==> s in path;
      DependantsAreBlocked(preflightIds, specs, selected, world, records, source, init);
      need := path[|path| - 2].checkId;
    }
    hide IsRun, Distinct, PlanIds, IsDependencyPath, IsPreflightRecord;
    assert need in last.needs && !PassedBefore(records, |records|, need);
    forall i | 0 <= i < |records| && records[i].id == last.checkId
      ensures records[i].status != Passed
      ensures records[i].id in selected ==> records[i].status == Blocked && records[i].origin.PrerequisiteNotPassed?
    {
      var k := SpecOfRecord(preflightIds, specs, selected, world, records, i, last);
      UnpassedNeedBlocks(preflightIds, specs, selected, world, records, k, need);
    }
  }

  /** When a preflight check is blocked, every selected check it lists as affected has a blocked record. */
  lemma BlockedInputBlocks(
    preflightIds: seq<string>, specs: seq<CheckSpec>, selected: set<string>, world: World, records: seq<Record>,
    k: nat, id: string)
    requires IsRun(preflightIds, specs, selected, world, records) && Distinct(PlanIds(preflightIds, specs))
    requires k < |preflightIds| && records[k].status == Blocked && id in records[k].affected && id in selected
    ensures exists i :: (&& 0 <= i < |records| && records[i].id == id
                         && records[i].status == Blocked && records[i].origin.PrerequisiteNotPassed?)
  {
    PreflightAt(preflightIds, specs, selected, world, records, k);
    OneRecordPerCheck(preflightIds, specs, selected, world, records);
    var source := preflightIds[k];
    assert !PassedBefore(records, |records|, source) by {
      if PassedBefore(records, |records|, source) {
        PassedIsTheRecord(preflightIds, specs, selected, world, records, k);
      }
    }
    var path: seq<CheckSpec> :| IsDependencyPath(specs, source, path) && path[|path| - 1].checkId == id;
    DependantsAreBlocked(preflightIds, specs, selected, world, records, source, path);
    var last := path[|path| - 1];
    assert last in path;
    var m :| 0 <= m < |specs| && specs[m] == last;
    assert records[|preflightIds| + m].id == id;
  }

  lemma UnpassedNeedBlocks(
    preflightIds: seq<string>, specs: seq<CheckSpec>, selected: set<string>, world: World, records: seq<Record>, k: nat,
    need: string)
    requires IsRun(preflightIds, specs, selected, world, records) && k < |specs|
    requires need in specs[k].needs && !PassedBefore(records, |records|, need)
    ensures var record := records[|preflightIds| + k];
      if specs[k].checkId in selected then record.status == Blocked && record.origin.PrerequisiteNotPassed?
      else record.status == NotRun
  {
    hide StatusOf, NotPassed;
    var i := |preflightIds| + k;
    CommandAt(preflightIds, specs, selected, world, records, k);
    if HasPassed(records[..i], need) { PassedInPrefix(records, i, need); }
    var n :| 0 <= n < |specs[k].needs| && specs[k].needs[n] == need;
  }

  // ----- what the records report -----

  /**
   The record of a selected input check and of a launched command has the outcome
   the check itself reported; a selected command that was not launched is blocked.
   */
  lemma RecordsReportOutcomes(
    preflightIds: seq<string>, specs: seq<CheckSpec>, selected: set<string>, world: World, records: seq<Record>)
    requires IsRun(preflightIds, specs, selected, world, records)
    ensures forall k :: 0 <= k < |preflightIds| && preflightIds[k] in selected ==>
      records[k].status == world.preflight(preflightIds[k])
    ensures forall k :: 0 <= k < |specs| && WasLaunched(records[|preflightIds| + k]) ==>
      specs[k].checkId in selected && records[|preflightIds| + k].status == world.command(specs[k].checkId)
    ensures forall k ::
      0 <= k < |specs| && specs[k].checkId in selected && !WasLaunched(records[|preflightIds| + k]) ==>
      records[|preflightIds| + k].status == Blocked
  {
    hide NeedsPassed, NotPassed, DependsOn, RecordsAfter;
    forall k | 0 <= k < |preflightIds| && preflightIds[k] in selected
      ensures records[k].status == world.preflight(preflightIds[k])
    {
      PreflightAt(preflightIds, specs, selected, world, records, k);
    }
    forall k | 0 <= k < |specs|
      ensures var record := records[|preflightIds| + k];
        record == CommandRecord(specs[k], records[..|preflightIds| + k], selected, world)
    {
      CommandAt(preflightIds, specs, selected, world, records, k);
    }
  }

  lemma {:induction false} NotPassedMeans(needs: seq<string>, records: seq<Record>)
    ensures forall need :: need in NotPassed(needs, records) <==> need in needs && !HasPassed(records, need)
    decreases |needs|
  {
    hide HasPassed;
    if needs != [] { NotPassedMeans(needs[1..], records); }
  }

  /** A command blocked by prerequisites lists those that had not passed before it, and there is one. */
  lemma BlockedListsUnpassed(
    preflightIds: seq<string>, specs: seq<CheckSpec>, selected: set<string>, world: World, records: seq<Record>,
    k: nat)
    requires IsRun(preflightIds, specs, selected, world, records) && Distinct(PlanIds(preflightIds, specs))
    requires k < |specs| && records[|preflightIds| + k].origin.PrerequisiteNotPassed?
    ensures var blockedBy := records[|preflightIds| + k].origin.blockedBy;
      && blockedBy != []
      && forall need :: need in blockedBy <==>
           need in specs[k].needs && !PassedBefore(records, |preflightIds| + k, need)
  {
    var i := |preflightIds| + k;
    CommandAt(preflightIds, specs, selected, world, records, k);
    NotPassedMeans(specs[k].needs, records[..i]);
    var n :| 0 <= n < |specs[k].needs| && !HasPassed(records[..i], specs[k].needs[n]);
    assert specs[k].needs[n] in NotPassed(specs[k].needs, records[..i]);
    forall need ensures HasPassed(records[..i], need) <==> PassedBefore(records, i, need) {
      hide IsRun, Distinct, CommandRecord, NotPassed, StatusOf, PlanIds;
      LookupFindsPassed(preflightIds, specs, selected, world, records, i, need);
    }
  }

  /** With distinct ids, looking a check up finds it passed iff some record before says so. */
  lemma LookupFindsPassed(
    preflightIds: seq<string>, specs: seq<CheckSpec>, selected: set<string>, world: World, records: seq<Record>,
    i: nat, need: string)
    requires IsRun(preflightIds, specs, selected, world, records) && Distinct(PlanIds(preflightIds, specs))
    requires i <= |records|
    ensures HasPassed(records[..i], need) <==> PassedBefore(records, i, need)
  {
    hide StatusOf;
    OneRecordPerCheck(preflightIds, specs, selected, world, records);
    hide IsRun;
    if HasPassed(records[..i], need) { PassedInPrefix(records, i, need); }
    if PassedBefore(records, i, need) {
      var j :| 0 <= j < i && records[j].id == need && records[j].status == Passed;
      PassedIsFound(records, i, j);
    }
  }

  // ----- the verdict -----

  /** A selected input check or a launched command reported this outcome. */
  ghost predicate SomeReported(
    preflightIds: seq<string>, specs: seq<CheckSpec>, selected: set<string>, world: World, records: seq<Record>,
    outcome: Outcome)
    requires |records| == |preflightIds| + |specs|
  {
    || (exists k :: (&& 0 <= k < |preflightIds| && preflightIds[k] in selected
                     && world.preflight(preflightIds[k]) == outcome))
    || (exists k :: (&& 0 <= k < |specs| && WasLaunched(records[|preflightIds| + k])
                     && world.command(specs[k].checkId) == outcome))
  }

  /** Some selected command was not launched. */
  ghost predicate SomeHeldBack(
    preflightIds: seq<string>, specs: seq<CheckSpec>, selected: set<string>, records: seq<Record>)
    requires |records| == |preflightIds| + |specs|
  {
    exists k :: 0 <= k < |specs| && specs[k].checkId in selected && !WasLaunched(records[|preflightIds| + k])
  }

  /**
   What the verdict says of the checks themselves: it is failed iff a selected
   input check or a launched command failed, else blocked iff one of these was
   blocked or a selected command was held back, and passed iff neither is the case.
   */
  lemma VerdictReportsOutcomes(
    preflightIds: seq<string>, specs: seq<CheckSpec>, selected: set<string>, world: World, records: seq<Record>)
    requires IsRun(preflightIds, specs, selected, world, records)
    ensures ReportStatus(records, selected) ==
      if SomeReported(preflightIds, specs, selected, world, records, Failed) then Failed
      else if SomeReported(preflightIds, specs, selected, world, records, Blocked)
        || SomeHeldBack(preflightIds, specs, selected, records) then Blocked
      else Passed
  {
    RecordsReportOutcomes(preflightIds, specs, selected, world, records);
    OneRecordPerCheck(preflightIds, specs, selected, world, records);
    hide IsRun, SomeReported, HasStatus;
    OutcomeOnRecord(preflightIds, specs, selected, world, records, Failed);
    OutcomeOnRecord(preflightIds, specs, selected, world, records, Blocked);
    assert !HasStatus(records, selected, NotRun) by { NeverNotRun(records, selected); }
  }

  lemma NeverNotRun(records: seq<Record>, selected: set<string>)
    requires forall i :: 0 <= i < |records| ==> (records[i].status == NotRun <==> records[i].id !in selected)
    ensures !HasStatus(records, selected, NotRun)
  {
  }

  lemma RecordIds(
    preflightIds: seq<string>, specs: seq<CheckSpec>, selected: set<string>, world: World, records: seq<Record>)
    requires IsRun(preflightIds, specs, selected, world, records)
    ensures |records| == |preflightIds| + |specs|
    ensures forall k :: 0 <= k < |preflightIds| ==> records[k].id == preflightIds[k]
    ensures forall k :: 0 <= k < |specs| ==> records[|preflightIds| + k].id == specs[k].checkId
  {
    OneRecordPerCheck(preflightIds, specs, selected, world, records);
    hide IsRun;
    assert forall k :: 0 <= k < |preflightIds| ==> PlanIds(preflightIds, specs)[k] == preflightIds[k];
    assert forall k :: 0 <= k < |specs| ==> PlanIds(preflightIds, specs)[|preflightIds| + k] == specs[k].checkId;
  }

  /** An outcome is on record for a selected check iff one reported it, or a command held back is recorded blocked. */
  lemma OutcomeOnRecord(
    preflightIds: seq<string>, specs: seq<CheckSpec>, selected: set<string>, world: World, records: seq<Record>,
    outcome: Outcome)
    requires IsRun(preflightIds, specs, selected, world, records)
    ensures HasStatus(records, selected, outcome) <==>
      || SomeReported(preflightIds, specs, selected, world, records, outcome)
      || (outcome == Blocked && SomeHeldBack(preflightIds, specs, selected, records))
  {
    RecordsReportOutcomes(preflightIds, specs, selected, world, records);
    RecordIds(preflightIds, specs, selected, world, records);
    hide IsRun, WasLaunched, SomeReported, SomeHeldBack;
    if HasStatus(records, selected, outcome) {
      var i :| 0 <= i < |records| && records[i].id in selected && records[i].status == outcome;
      RecordedIsReported(preflightIds, specs, selected, world, records, outcome, i);
    }
    if SomeReported(preflightIds, specs, selected, world, records, outcome)
      || (outcome == Blocked && SomeHeldBack(preflightIds, specs, selected, records))
    {
      ReportedIsRecorded(preflightIds, specs, selected, world, records, outcome);
    }
  }

  lemma RecordedIsReported(
    preflightIds: seq<string>, specs: seq<CheckSpec>, selected: set<string>, world: World, records: seq<Record>,
    outcome: Outcome, i: nat)
    requires IsRun(preflightIds, specs, selected, world, records)
    requires i < |records| && records[i].id in selected && records[i].status == outcome
    ensures || SomeReported(preflightIds, specs, selected, world, records, outcome)
            || (outcome == Blocked && SomeHeldBack(preflightIds, specs, selected, records))
  {
    RecordsReportOutcomes(preflightIds, specs, selected, world, records);
    RecordIds(preflightIds, specs, selected, world, records);
    hide IsRun, WasLaunched;
    if i < |preflightIds| {
      assert world.preflight(preflightIds[i]) == outcome;
    } else {
      var k := i - |preflightIds|;
      assert records[|preflightIds| + k] == records[i] && specs[k].checkId in selected;
      if WasLaunched(records[|preflightIds| + k]) {
        assert world.command(specs[k].checkId) == outcome;
      } else {
        assert outcome == Blocked && SomeHeldBack(preflightIds, specs, selected, records);
      }
    }
  }

  lemma ReportedIsRecorded(
    preflightIds: seq<string>, specs: seq<CheckSpec>, selected: set<string>, world: World, records: seq<Record>,
    outcome: Outcome)
    requires IsRun(preflightIds, specs, selected, world, records)
    requires || SomeReported(preflightIds, specs, selected, world, records, outcome)
             || (outcome == Blocked && SomeHeldBack(preflightIds, specs, selected, records))
    ensures HasStatus(records, selected, outcome)
  {
    RecordsReportOutcomes(preflightIds, specs, selected, world, records);
    RecordIds(preflightIds, specs, selected, world, records);
    hide IsRun, WasLaunched;
    var p := |preflightIds|;
    if k :| 0 <= k < p && preflightIds[k] in selected && world.preflight(preflightIds[k]) == outcome {
      assert records[k].id in selected;
    } else if k :| 0 <= k < |specs| && WasLaunched(records[p + k]) && world.command(specs[k].checkId) == outcome {
      assert records[p + k].id in selected;
    } else {
      var k :| 0 <= k < |specs| && specs[k].checkId in selected && !WasLaunched(records[p + k]);
      assert records[p + k].id in selected;
    }
  }

  /** The report passes iff every selected check that has a record passed. */
  lemma PassedIffAllRecordsPassed(records: seq<Record>, selected: set<string>)
    ensures ReportStatus(records, selected) == Passed <==>
      forall i :: 0 <= i < |records| && records[i].id in selected ==> records[i].status == Passed
  {
  }

  ghost predicate AllSelectedPassed(records: seq<Record>, selected: set<string>) {
    forall id :: id in selected ==> PassedBefore(records, |records|, id)
  }

  /** In a run reported passed, every selected check passed iff every selected id is in the plan. */
  lemma PassedMeansAllPassed(
    preflightIds: seq<string>, specs: seq<CheckSpec>, selected: set<string>, world: World, records: seq<Record>)
    requires IsRun(preflightIds, specs, selected, world, records) && ReportStatus(records, selected) == Passed
    ensures AllSelectedPassed(records, selected) <==> selected <= ToSet(PlanIds(preflightIds, specs))
  {
    OneRecordPerCheck(preflightIds, specs, selected, world, records);
    PassedIffAllRecordsPassed(records, selected);
    hide IsRun, ReportStatus;
    forall id | id in selected ensures PassedBefore(records, |records|, id) <==> id in PlanIds(preflightIds, specs) {
      if id in PlanIds(preflightIds, specs) {
        var i :| 0 <= i < |records| && PlanIds(preflightIds, specs)[i] == id;
        assert records[i].id == id;
      }
    }
  }

  /**
   For a selection made by closing known ids under prerequisites, the report of a
   run passes iff every selected check has a record and passed; it is never `not_run`.
   */
  lemma VerdictIsHonest(
    preflightIds: seq<string>, specs: seq<CheckSpec>, seed: set<string>, selected: set<string>, world: World,
    records: seq<Record>)
    requires IsRun(preflightIds, specs, selected, world, records) && Distinct(PlanIds(preflightIds, specs))
    requires IsLeastClosure(specs, seed, selected) && MANIFESTS in preflightIds && RUNTIME_RESOURCES in preflightIds
    requires forall id :: id in seed ==> id in PlanIds(preflightIds, specs)
    ensures ReportStatus(records, selected) != NotRun
    ensures ReportStatus(records, selected) == Passed <==>
      forall id :: id in selected ==> PassedBefore(records, |records|, id)
  {
    PassedIffAllRecordsPassed(records, selected);
    OneRecordPerCheck(preflightIds, specs, selected, world, records);
    if ReportStatus(records, selected) == Passed {
      SelectedArePassed(preflightIds, specs, seed, selected, world, records);
    }
    hide IsRun, IsLeastClosure, Distinct, PlanIds, ReportStatus;
    if forall id :: id in selected ==> PassedBefore(records, |records|, id) {
      forall i | 0 <= i < |records| && records[i].id in selected ensures records[i].status == Passed {
        PassedIsTheRecord(preflightIds, specs, selected, world, records, i);
      }
    }
  }

  /**
   Selections made by the selector never mislead: what was asked for is in the plan, and
   nothing passes on a missing need.
   */
  lemma SelectorVerdictIsHonest(
    request: Request, preflightIds: seq<string>, specs: seq<CheckSpec>, selected: set<string>, world: World,
    records: seq<Record>)
    requires Seed(request, preflightIds, specs).Ok?
      && IsLeastClosure(specs, Seed(request, preflightIds, specs).value, selected)
    requires IsRun(preflightIds, specs, selected, world, records) && Distinct(PlanIds(preflightIds, specs))
    requires MANIFESTS in preflightIds && RUNTIME_RESOURCES in preflightIds
    ensures ReportStatus(records, selected) != NotRun
    ensures ReportStatus(records, selected) == Passed <==> AllSelectedPassed(records, selected)
    ensures ReportStatus(records, selected) == Passed ==> selected <= ToSet(PlanIds(preflightIds, specs))
    ensures ReportStatus(records, selected) == Passed ==>
      forall id :: AsksFor(request, preflightIds, specs, id) ==> PassedBefore(records, |records|, id)
  {
    hide IsRun, ReportStatus, Seed, AsksFor;
    SeedIsPlanned(request, preflightIds, specs);
    SeedMeans(request, preflightIds, specs);
    VerdictIsHonest(preflightIds, specs, Seed(request, preflightIds, specs).value, selected, world, records);
    if ReportStatus(records, selected) == Passed {
      PassedMeansAllPassed(preflightIds, specs, selected, world, records);
    }
  }

  /** A run is reported passed only if every selected check of the plan reported a pass. */
  lemma PassedIsReported(
    preflightIds: seq<string>, specs: seq<CheckSpec>, selected: set<string>, world: World, records: seq<Record>)
    requires IsRun(preflightIds, specs, selected, world, records) && ReportStatus(records, selected) == Passed
    ensures forall id :: id in preflightIds && id in selected ==> world.preflight(id) == Passed
    ensures forall s :: s in specs && s.checkId in selected ==> world.command(s.checkId) == Passed
  {
    RecordsReportOutcomes(preflightIds, specs, selected, world, records);
    RecordIds(preflightIds, specs, selected, world, records);
    PassedIffAllRecordsPassed(records, selected);
    hide IsRun, ReportStatus;
    forall id | id in preflightIds && id in selected ensures world.preflight(id) == Passed {
      var k :| 0 <= k < |preflightIds| && preflightIds[k] == id;
      assert records[k].status == Passed;
    }
    forall s | s in specs && s.checkId in selected ensures world.command(s.checkId) == Passed {
      var k :| 0 <= k < |specs| && specs[k] == s;
      assert records[|preflightIds| + k].status == Passed;
    }
  }

  datatype AuditReport = AuditReport(selected: set<string>, records: seq<Record>, status: Status)

  /** One audit: selection, run and verdict. */
  method Audit(request: Request, specs: seq<CheckSpec>, world: World) returns (r: Result<AuditReport, SelectionError>)
    ensures r.Err? <==> exists token :: FirstUnknown(request, PREFLIGHT_IDS, specs, token)
    ensures r.Err? ==> FirstUnknown(request, PREFLIGHT_IDS, specs, r.error.token)
    ensures r.Ok? ==> IsRun(PREFLIGHT_IDS, specs, r.value.selected, world, r.value.records)
    ensures r.Ok? ==>
      (&& Seed(request, PREFLIGHT_IDS, specs).Ok?
       && (forall id :: id in Seed(request, PREFLIGHT_IDS, specs).value <==> AsksFor(request, PREFLIGHT_IDS, specs, id))
       && IsLeastClosure(specs, Seed(request, PREFLIGHT_IDS, specs).value, r.value.selected))
    ensures r.Ok? && Distinct(PlanIds(PREFLIGHT_IDS, specs)) ==>
      r.value.status != NotRun && (r.value.status == Passed <==> AllSelectedPassed(r.value.records, r.value.selected))
    ensures r.Ok? ==>
      (r.value.status == Failed
       <==> SomeReported(PREFLIGHT_IDS, specs, r.value.selected, world, r.value.records, Failed))
    ensures r.Ok? && r.value.status == Passed ==>
      (forall id :: id in PREFLIGHT_IDS && id in r.value.selected ==> world.preflight(id) == Passed)
      && forall s :: s in specs && s.checkId in r.value.selected ==> world.command(s.checkId) == Passed
  {
    hide SomeReported, SomeHeldBack;
    hide FirstUnknown, AsksFor, Seed, PlanIds, ReportStatus, ArePreflightRecords, AllSelectedPassed;
    var selection := SelectionFor(request, PREFLIGHT_IDS, specs);
    if selection.Err? { return Err(selection.error); }
    var selected := selection.value;
    var records := RunAudit(PREFLIGHT_IDS, specs, selected, world);
    r := Ok(AuditReport(selected, records, ReportStatus(records, selected)));
    VerdictReportsOutcomes(PREFLIGHT_IDS, specs, selected, world, records);
    if ReportStatus(records, selected) == Passed {
      PassedIsReported(PREFLIGHT_IDS, specs, selected, world, records);
    }
    if Distinct(PlanIds(PREFLIGHT_IDS, specs)) {
      assert PREFLIGHT_IDS[9] == MANIFESTS && PREFLIGHT_IDS[10] == RUNTIME_RESOURCES;
      SelectorVerdictIsHonest(request, PREFLIGHT_IDS, specs, selected, world, records);
    }
  }

  /** With distinct ids, a check that passed has no other record. */
  lemma PassedIsTheRecord(
    preflightIds: seq<string>, specs: seq<CheckSpec>, selected: set<string>, world: World, records: seq<Record>,
    i: nat)
    requires IsRun(preflightIds, specs, selected, world, records) && Distinct(PlanIds(preflightIds, specs))
      && i < |records|
    requires PassedBefore(records, |records|, records[i].id)
    ensures records[i].status == Passed
  {
    OneRecordPerCheck(preflightIds, specs, selected, world, records);
    var j :| 0 <= j < |records| && records[j].id == records[i].id && records[j].status == Passed;
    assert PlanIds(preflightIds, specs)[i] == PlanIds(preflightIds, specs)[j];
  }

  /**
   In a passed run the passed checks hold the seed and are closed under prerequisites, so
   they are all that was selected.
   */
  lemma SelectedArePassed(
    preflightIds: seq<string>, specs: seq<CheckSpec>, seed: set<string>, selected: set<string>, world: World,
    records: seq<Record>)
    requires IsRun(preflightIds, specs, selected, world, records) && Distinct(PlanIds(preflightIds, specs))
    requires IsLeastClosure(specs, seed, selected) && MANIFESTS in preflightIds && RUNTIME_RESOURCES in preflightIds
    requires forall id :: id in seed ==> id in PlanIds(preflightIds, specs)
    requires ReportStatus(records, selected) == Passed
    ensures forall id :: id in selected ==> PassedBefore(records, |records|, id)
  {
    OneRecordPerCheck(preflightIds, specs, selected, world, records);
    PassedIffAllRecordsPassed(records, selected);
    hide IsRun, ReportStatus, Requirements;
    var recorded := set id | id in selected && PassedBefore(records, |records|, id);
    forall id | id in seed ensures id in recorded {
      var i :| 0 <= i < |records| && PlanIds(preflightIds, specs)[i] == id;
      assert records[i].id == id;
    }
    forall id, r | id in recorded && r in Requirements(specs, id) ensures r in recorded {
      NeedOfPassed(preflightIds, specs, selected, world, records, id, r);
    }
    assert ClosedUnderNeeds(specs, recorded);
    assert selected <= recorded;
  }

  /** The prerequisites of a passed check are recorded as passed too. */
  lemma NeedOfPassed(
    preflightIds: seq<string>, specs: seq<CheckSpec>, selected: set<string>, world: World, records: seq<Record>,
    id: string, r: string)
    requires IsRun(preflightIds, specs, selected, world, records) && Distinct(PlanIds(preflightIds, specs))
    requires ClosedUnderNeeds(specs, selected) && id in selected && MANIFESTS in preflightIds
      && RUNTIME_RESOURCES in preflightIds
    requires ReportStatus(records, selected) == Passed
    requires PassedBefore(records, |records|, id) && r in Requirements(specs, id)
    ensures r in selected && PassedBefore(records, |records|, r)
  {
    OneRecordPerCheck(preflightIds, specs, selected, world, records);
    PassedIffAllRecordsPassed(records, selected);
    if s :| s in specs && s.checkId == id {
      var i :| 0 <= i < |records| && records[i].id == id && records[i].status == Passed;
      var k := SpecOfRecord(preflightIds, specs, selected, world, records, i, s);
      forall a, b | 0 <= a < b < |specs| ensures specs[a].checkId != specs[b].checkId {
        assert PlanIds(preflightIds, specs)[|preflightIds| + a] != PlanIds(preflightIds, specs)[|preflightIds| + b];
      }
      RequirementsOfSpec(specs, k);
      PassedCommandWasLaunched(preflightIds, specs, selected, world, records, k);
      DirectNeedsPassed(preflightIds, specs, selected, world, records, k);
      var j :| 0 <= j < i && records[j].id == r && records[j].status == Passed;
    } else {
      RequirementsOfOther(specs, id);
      var m :| 0 <= m < |preflightIds| && preflightIds[m] == MANIFESTS;
      assert PlanIds(preflightIds, specs)[m] == MANIFESTS && records[m].id == r;
    }
  }

  /** With distinct spec ids, the prerequisites of a spec's id are that spec's. */
  lemma {:induction false} RequirementsOfSpec(specs: seq<CheckSpec>, k: nat)
    requires k < |specs| && forall i, j :: 0 <= i < j < |specs| ==> specs[i].checkId != specs[j].checkId
    ensures Requirements(specs, specs[k].checkId) == specs[k].needs
    decreases |specs|
  {
    if k < |specs| - 1 {
      RequirementsOfSpec(specs[..|specs| - 1], k);
    }
  }

  lemma {:induction false} RequirementsOfOther(specs: seq<CheckSpec>, id: string)
    requires forall s :: s in specs ==> s.checkId != id
    ensures Requirements(specs, id) == if id == RUNTIME_RESOURCES then [MANIFESTS] else []
    decreases |specs|
  {
    if specs != [] {
      assert specs[|specs| - 1] in specs;
      assert forall s :: s in specs[..|specs| - 1] ==> s in specs;
      RequirementsOfOther(specs[..|specs| - 1], id);
    }
  }
}
