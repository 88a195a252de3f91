/**
 Where the audit promises less than it seems to: exactly what a passed report
 and a launched command do not imply.
 */
module SchedulerLimits {
  import opened Wrappers
  import opened Scheduler
  import opened SchedulerSafety

  // ----- reports about nothing -----

  /** A selected id outside the plan has no record: alone, it is reported passed though nothing ran. */
  lemma UnknownSelectionPasses(
    preflightIds: seq<string>, specs: seq<CheckSpec>, world: World, records: seq<Record>, id: string)
    requires IsRun(preflightIds, specs, {id}, world, records) && id !in PlanIds(preflightIds, specs)
    ensures ReportStatus(records, {id}) == Passed && !AllSelectedPassed(records, {id})
  {
    OneRecordPerCheck(preflightIds, specs, {id}, world, records);
    forall i | 0 <= i < |records| ensures records[i].id != id { assert PlanIds(preflightIds, specs)[i] != id; }
    assert id in {id};
  }

  /** The request names no check: its phase has none, or each token is empty or an alias for none. */
  predicate NamesNoCheck(request: Request, preflightIds: seq<string>, specs: seq<CheckSpec>) {
    match request
    case Phase(name) => Alias(name, preflightIds, specs) == Some({})
    case Only(tokens) => forall k :: 0 <= k < |tokens| ==> IsSilent(tokens[k], preflightIds, specs)
  }

  predicate IsSilent(token: string, preflightIds: seq<string>, specs: seq<CheckSpec>) {
    token == "" || Alias(token, preflightIds, specs) == Some({})
  }

  /**
   A run for a selection the selector makes is reported passed although nothing
   ran iff the request names no check; in any other run reported passed some
   check passed.
   */
  lemma NothingRanIff(
    request: Request, preflightIds: seq<string>, specs: seq<CheckSpec>, selected: set<string>, world: World,
    records: seq<Record>)
    requires Seed(request, preflightIds, specs).Ok?
      && IsLeastClosure(specs, Seed(request, preflightIds, specs).value, selected)
    requires IsRun(preflightIds, specs, selected, world, records)
    ensures NamesNoCheck(request, preflightIds, specs) <==> forall id :: !AsksFor(request, preflightIds, specs, id)
    ensures ReportStatus(records, selected) == Passed
        && (forall i :: 0 <= i < |records| ==> records[i].status == NotRun)
      <==> NamesNoCheck(request, preflightIds, specs)
    ensures ReportStatus(records, selected) == Passed ==>
      ((exists i :: 0 <= i < |records| && records[i].status == Passed)
       <==> exists id :: AsksFor(request, preflightIds, specs, id))
  {
    hide IsRun, ReportStatus, Seed, AsksFor, NamesNoCheck;
    var seed := Seed(request, preflightIds, specs).value;
    SeedMeans(request, preflightIds, specs);
    SeedIsPlanned(request, preflightIds, specs);
    NamesNoCheckMeans(request, preflightIds, specs);
    OneRecordPerCheck(preflightIds, specs, selected, world, records);
    PassedIffAllRecordsPassed(records, selected);
    if id :| id in seed {
      var i :| 0 <= i < |records| && PlanIds(preflightIds, specs)[i] == id;
      assert records[i].id == id && records[i].status != NotRun;
    } else {
      assert seed == {} && ClosedUnderNeeds(specs, {});
      assert selected == {};
    }
  }

  lemma NamesNoCheckMeans(request: Request, preflightIds: seq<string>, specs: seq<CheckSpec>)
    requires Seed(request, preflightIds, specs).Ok?
    ensures NamesNoCheck(request, preflightIds, specs) <==> forall id :: !AsksFor(request, preflightIds, specs, id)
  {
    match request {
      case Phase(name) =>
        hide Alias;
        var ids := Alias(name, preflightIds, specs).value;
        assert forall id :: AsksFor(request, preflightIds, specs, id) <==> id in ids;
        assert (forall id :: id !in ids) <==> ids == {};
      case Only(tokens) =>
        SilentTokens(tokens, preflightIds, specs);
    }
  }

  lemma SilentTokens(tokens: seq<string>, preflightIds: seq<string>, specs: seq<CheckSpec>)
    requires SeedOf(tokens, preflightIds, specs).Ok?
    ensures (forall k :: 0 <= k < |tokens| ==> IsSilent(tokens[k], preflightIds, specs))
      <==> forall id :: !AsksFor(Only(tokens), preflightIds, specs, id)
  {
    hide IsSilent, Names, IsKnown, SeedOf;
    SeedOfMeans(tokens, preflightIds, specs);
    forall k | 0 <= k < |tokens|
      ensures IsSilent(tokens[k], preflightIds, specs) || exists id :: Names(tokens[k], preflightIds, specs, id)
      ensures IsSilent(tokens[k], preflightIds, specs) ==> forall id :: !Names(tokens[k], preflightIds, specs, id)
    {
      SilentMeans(tokens[k], preflightIds, specs);
    }
    forall id ensures AsksFor(Only(tokens), preflightIds, specs, id) <==>
      exists k :: 0 <= k < |tokens| && Names(tokens[k], preflightIds, specs, id)
    {
    }
    if k :| 0 <= k < |tokens| && !IsSilent(tokens[k], preflightIds, specs) {
      var id :| Names(tokens[k], preflightIds, specs, id);
      assert AsksFor(Only(tokens), preflightIds, specs, id);
    }
  }

  lemma SilentMeans(token: string, preflightIds: seq<string>, specs: seq<CheckSpec>)
    requires IsKnown(token, preflightIds, specs)
    ensures IsSilent(token, preflightIds, specs) <==> forall id :: !Names(token, preflightIds, specs, id)
  {
    hide Alias, SpecIds;
    if token != "" {
      var ids := Alias(token, preflightIds, specs);
      if ids.Some? {
        assert forall id :: Names(token, preflightIds, specs, id) <==> id in ids.value;
        assert (forall id :: id !in ids.value) <==> ids.value == {};
      } else {
        assert Names(token, preflightIds, specs, token);
      }
    }
  }

  /** Empty tokens name no check, and neither does a phase without specs: any run for them is reported passed. */
  lemma EmptyRequestsPass(preflightIds: seq<string>, specs: seq<CheckSpec>, name: string, records: seq<Record>)
    requires name in PHASES && forall s :: s in specs ==> s.phase != name
    ensures NamesNoCheck(Only([""]), preflightIds, specs) && NamesNoCheck(Phase(name), preflightIds, specs)
    ensures IsLeastClosure(specs, {}, {}) && ReportStatus(records, {}) == Passed
  {
    assert name != "all" && name != "preflight";
    assert (set s | s in specs && s.phase == name :: s.checkId) == {};
  }

  // ----- selections outside the plan -----

  /** Every selected command needs only selected checks that stand earlier in the plan. */
  ghost predicate CanPass(preflightIds: seq<string>, specs: seq<CheckSpec>, selected: set<string>) {
    forall k, need :: 0 <= k < |specs| && specs[k].checkId in selected && need in specs[k].needs ==>
      need in selected && need in PlanIds(preflightIds, specs)[..|preflightIds| + k]
  }

  ghost predicate IsMisled(
    preflightIds: seq<string>, specs: seq<CheckSpec>, selected: set<string>, world: World, records: seq<Record>)
  {
    && IsRun(preflightIds, specs, selected, world, records)
    && ReportStatus(records, selected) == Passed && !AllSelectedPassed(records, selected)
  }

  /**
   The verdict can mislead exactly for selections with an id outside the plan
   whose commands need only selected checks earlier in the plan: for these, and
   no others, some run is reported passed though a selected check did not pass.
   */
  lemma MisleadingVerdictIff(preflightIds: seq<string>, specs: seq<CheckSpec>, selected: set<string>)
    requires Distinct(PlanIds(preflightIds, specs))
    ensures (exists world, records :: IsMisled(preflightIds, specs, selected, world, records))
      <==> !(selected <= ToSet(PlanIds(preflightIds, specs))) && CanPass(preflightIds, specs, selected)
  {
    hide IsRun, ReportStatus, AllSelectedPassed, CanPass, Distinct, PlanIds;
    forall world, records | IsMisled(preflightIds, specs, selected, world, records)
      ensures !(selected <= ToSet(PlanIds(preflightIds, specs))) && CanPass(preflightIds, specs, selected)
    {
      PassedMeansAllPassed(preflightIds, specs, selected, world, records);
      PassingRunCanPass(preflightIds, specs, selected, world, records);
    }
    if !(selected <= ToSet(PlanIds(preflightIds, specs))) && CanPass(preflightIds, specs, selected) {
      var world := World(_ => Passed, _ => Passed);
      var records := GoodRun(preflightIds, specs, selected, world, selected);
      PassedIffAllRecordsPassed(records, selected);
      PassedMeansAllPassed(preflightIds, specs, selected, world, records);
      assert IsMisled(preflightIds, specs, selected, world, records);
    }
  }

  lemma PassingRunCanPass(
    preflightIds: seq<string>, specs: seq<CheckSpec>, selected: set<string>, world: World, records: seq<Record>)
    requires IsRun(preflightIds, specs, selected, world, records) && ReportStatus(records, selected) == Passed
    ensures CanPass(preflightIds, specs, selected)
  {
    OneRecordPerCheck(preflightIds, specs, selected, world, records);
    PassedIffAllRecordsPassed(records, selected);
    hide IsRun, ReportStatus;
    forall k, need | 0 <= k < |specs| && specs[k].checkId in selected && need in specs[k].needs
      ensures need in selected && need in PlanIds(preflightIds, specs)[..|preflightIds| + k]
    {
      assert records[|preflightIds| + k].id == specs[k].checkId;
      PassedCommandWasLaunched(preflightIds, specs, selected, world, records, k);
      LaunchedNeedIsSelected(preflightIds, specs, selected, world, records, k, need);
    }
  }

  lemma LaunchedNeedIsSelected(
    preflightIds: seq<string>, specs: seq<CheckSpec>, selected: set<string>, world: World, records: seq<Record>,
    k: nat, need: string)
    requires IsRun(preflightIds, specs, selected, world, records) && k < |specs|
    requires WasLaunched(records[|preflightIds| + k]) && need in specs[k].needs
    ensures need in selected && need in PlanIds(preflightIds, specs)[..|preflightIds| + k]
  {
    var i := |preflightIds| + k;
    OneRecordPerCheck(preflightIds, specs, selected, world, records);
    DirectNeedsPassed(preflightIds, specs, selected, world, records, k);
    hide IsRun;
    var j :| 0 <= j < i && j < |records| && records[j].id == need && records[j].status == Passed;
    assert PlanIds(preflightIds, specs)[..i][j] == need;
  }

  // ----- building a run -----

  /** The good checks report a pass if they run, and no input check is blocked. */
  ghost predicate IsGoodFor(world: World, good: set<string>) {
    && (forall x :: x in good ==> world.preflight(x) == Passed && world.command(x) == Passed)
    && forall x :: world.preflight(x) != Blocked
  }

  function PreflightRecords(preflightIds: seq<string>, selected: set<string>, world: World): (records: seq<Record>)
    ensures |records| == |preflightIds|
  {
    seq(|preflightIds|, k requires 0 <= k < |preflightIds| =>
      var id := preflightIds[k];
      if id in selected then Record(id, false, world.preflight(id), Ran, [])
      else Record(id, false, NotRun, SelectionFilter, []))
  }

  /** Records of the first ids, in order, passed wherever they are good. */
  ghost predicate AreAllPassed(records: seq<Record>, ids: seq<string>, good: set<string>) {
    && |records| <= |ids| && (forall i :: 0 <= i < |records| ==> records[i].id == ids[i])
    && forall i :: 0 <= i < |records| && records[i].id in good ==> records[i].status == Passed
  }

  /** When selected checks need only each other, earlier in the plan, and report a pass, they all pass. */
  lemma GoodRun(
    preflightIds: seq<string>, specs: seq<CheckSpec>, selected: set<string>, world: World, good: set<string>)
    returns (records: seq<Record>)
    requires Distinct(PlanIds(preflightIds, specs)) && CanPass(preflightIds, specs, good)
    requires good <= selected && IsGoodFor(world, good)
    ensures IsRun(preflightIds, specs, selected, world, records)
    ensures AreAllPassed(records, PlanIds(preflightIds, specs), good)
  {
    var preflight := PreflightRecords(preflightIds, selected, world);
    records := RecordsAfter(preflight, specs, selected, world, |specs|);
    PreflightStays(preflight, specs, selected, world, |specs|);
    GoodPrefix(preflightIds, specs, selected, world, good, |specs|);
    hide RecordsAfter;
    assert records[..|preflightIds|] == preflight;
  }

  lemma {:induction false} PreflightStays(
    preflight: seq<Record>, specs: seq<CheckSpec>, selected: set<string>, world: World, n: nat)
    requires n <= |specs|
    ensures RecordsAfter(preflight, specs, selected, world, n)[..|preflight|] == preflight
    decreases n
  {
    hide CommandRecord;
    if n > 0 { PreflightStays(preflight, specs, selected, world, n - 1); }
  }

  lemma {:induction false} GoodPrefix(
    preflightIds: seq<string>, specs: seq<CheckSpec>, selected: set<string>, world: World, good: set<string>, n: nat)
    requires Distinct(PlanIds(preflightIds, specs)) && CanPass(preflightIds, specs, good)
    requires good <= selected && IsGoodFor(world, good) && n <= |specs|
    ensures var records := RecordsAfter(PreflightRecords(preflightIds, selected, world), specs, selected, world, n);
      |records| == |preflightIds| + n && AreAllPassed(records, PlanIds(preflightIds, specs), good)
    decreases n
  {
    hide CanPass, Distinct, CommandRecord;
    if n > 0 {
      GoodPrefix(preflightIds, specs, selected, world, good, n - 1);
      var earlier := RecordsAfter(PreflightRecords(preflightIds, selected, world), specs, selected, world, n - 1);
      GoodStep(preflightIds, specs, selected, world, good, n - 1, earlier);
    }
  }

  lemma GoodStep(
    preflightIds: seq<string>, specs: seq<CheckSpec>, selected: set<string>, world: World, good: set<string>,
    k: nat, earlier: seq<Record>)
    requires Distinct(PlanIds(preflightIds, specs)) && CanPass(preflightIds, specs, good)
    requires good <= selected && IsGoodFor(world, good) && k < |specs|
    requires |earlier| == |preflightIds| + k && AreAllPassed(earlier, PlanIds(preflightIds, specs), good)
    ensures var record := CommandRecord(specs[k], earlier, selected, world);
      record.id == specs[k].checkId && (record.id in good ==> record.status == Passed)
  {
    hide StatusOf, Distinct;
    var ids := PlanIds(preflightIds, specs);
    if specs[k].checkId in good {
      forall n | 0 <= n < |specs[k].needs| ensures HasPassed(earlier, specs[k].needs[n]) {
        var need := specs[k].needs[n];
        assert need in specs[k].needs;
        var j :| 0 <= j < |earlier| && ids[..|earlier|][j] == need;
        assert earlier[j].id == need && earlier[..|earlier|] == earlier;
        DistinctPositions(ids);
        assert forall a, b :: 0 <= a < b < |earlier| ==> earlier[a].id != earlier[b].id by {
          assert forall a, b :: 0 <= a < b < |earlier| ==> ids[a] != ids[b];
        }
        PassedIsFound(earlier, |earlier|, j);
      }
    }
  }

  lemma DistinctPositions(ids: seq<string>)
    requires Distinct(ids)
    ensures forall i, j :: 0 <= i < j < |ids| ==> ids[i] != ids[j]
  {
  }

  // ----- the prerequisite only the selector knows -----

  ghost predicate Needs(specs: seq<CheckSpec>, id: string, target: string) {
    exists path :: IsNeedsPath(specs, path) && path[0] == id && path[|path| - 1] == target
  }

  /** A path along the prerequisites the selection is closed under. */
  ghost predicate IsRequirementsPath(specs: seq<CheckSpec>, path: seq<string>) {
    |path| >= 2 && forall i: nat :: i + 1 < |path| ==> path[i + 1] in Requirements(specs, path[i])
  }

  /** A launched command, some of whose prerequisites of the selection had not passed before. */
  ghost predicate IsExposed(
    preflightIds: seq<string>, specs: seq<CheckSpec>, selected: set<string>, world: World, records: seq<Record>, k: nat)
  {
    && k < |specs| && IsRun(preflightIds, specs, selected, world, records)
    && WasLaunched(records[|preflightIds| + k])
    && exists path :: IsRequirementsPath(specs, path) && path[0] == specs[k].checkId
         && !PassedBefore(records, |preflightIds| + k, path[|path| - 1])
  }

  lemma {:induction false} RequirementsAre(specs: seq<CheckSpec>, id: string, r: string)
    requires r in Requirements(specs, id)
    ensures IsNeed(specs, id, r)
      || (id == RUNTIME_RESOURCES && r == MANIFESTS && forall s :: s in specs ==> s.checkId != id)
    decreases |specs|
  {
    if specs != [] {
      var init, last := specs[..|specs| - 1], specs[|specs| - 1];
      assert specs == init + [last];
      if last.checkId != id { RequirementsAre(init, id, r); }
    }
  }

  /** A plan with distinct ids gives no command the id of an input check. */
  lemma InputIsNoCommand(preflightIds: seq<string>, specs: seq<CheckSpec>, id: string)
    requires Distinct(PlanIds(preflightIds, specs)) && id in preflightIds
    ensures forall s :: s in specs ==> s.checkId != id
  {
    var ids := PlanIds(preflightIds, specs);
    var j :| 0 <= j < |preflightIds| && preflightIds[j] == id;
    forall s | s in specs ensures s.checkId != id {
      var k :| 0 <= k < |specs| && specs[k] == s;
      assert ids[j] == id && ids[|preflightIds| + k] == s.checkId;
    }
  }

  lemma NeedsNext(specs: seq<CheckSpec>, id: string, middle: string, target: string)
    requires IsNeed(specs, middle, target) && (middle == id || Needs(specs, id, middle))
    ensures Needs(specs, id, target)
  {
    hide IsNeed;
    var path := [id];
    if middle != id { path :| IsNeedsPath(specs, path) && path[0] == id && path[|path| - 1] == middle; }
    var longer := path + [target];
    forall i: nat | i + 1 < |longer| ensures IsNeed(specs, longer[i], longer[i + 1]) {
      if i + 1 < |path| { assert IsNeed(specs, path[i], path[i + 1]); }
    }
    assert IsNeedsPath(specs, longer);
  }

  /** What the selection requires of a command is what the specs declare, and the manifests behind the resources. */
  lemma {:induction false} RequirementsPathEnds(
    preflightIds: seq<string>, specs: seq<CheckSpec>, id: string, path: seq<string>)
    requires Distinct(PlanIds(preflightIds, specs)) && MANIFESTS in preflightIds && RUNTIME_RESOURCES in preflightIds
    requires IsRequirementsPath(specs, path) && path[0] == id && id !in preflightIds
    ensures var last := path[|path| - 1];
      Needs(specs, id, last) || (last == MANIFESTS && Needs(specs, id, RUNTIME_RESOURCES))
    decreases |path|
  {
    hide Needs, IsNeed, Distinct, Requirements, PlanIds;
    var middle, last := path[|path| - 2], path[|path| - 1];
    assert path[|path| - 2 + 1] in Requirements(specs, path[|path| - 2]);
    RequirementsAre(specs, middle, last);
    if |path| > 2 {
      var init := path[..|path| - 1];
      forall i: nat | i + 1 < |init| ensures init[i + 1] in Requirements(specs, init[i]) {
        assert path[i + 1] in Requirements(specs, path[i]);
      }
      RequirementsPathEnds(preflightIds, specs, id, init);
      if IsNeed(specs, middle, last) {
        InputIsNoCommand(preflightIds, specs, MANIFESTS);
        if middle == MANIFESTS { NoCommandNeedsNothing(specs, middle, last); }
        NeedsNext(specs, id, middle, last);
      }
    } else if IsNeed(specs, middle, last) {
      NeedsNext(specs, id, middle, last);
    }
  }

  lemma NoCommandNeedsNothing(specs: seq<CheckSpec>, id: string, need: string)
    requires forall s :: s in specs ==> s.checkId != id
    ensures !IsNeed(specs, id, need)
  {
  }

  /** A check and all that it needs, as far as it is selected. */
  ghost function Demanded(specs: seq<CheckSpec>, selected: set<string>, id: string): set<string> {
    set y | y in selected && (y == id || Needs(specs, id, y))
  }

  /**
   A selection exposes a command iff the command needs the runtime resources,
   directly or through other commands, does not also need the manifests that way,
   and all it needs is selected and in order: then, and only then, some run
   launches it before all its prerequisites of the selection have passed.
   */
  lemma ExposedIff(preflightIds: seq<string>, specs: seq<CheckSpec>, selected: set<string>, k: nat)
    requires Distinct(PlanIds(preflightIds, specs))
    requires MANIFESTS in preflightIds && RUNTIME_RESOURCES in preflightIds
    requires k < |specs| && specs[k].checkId in selected
    ensures (exists world, records :: IsExposed(preflightIds, specs, selected, world, records, k))
      <==> (&& Needs(specs, specs[k].checkId, RUNTIME_RESOURCES) && !Needs(specs, specs[k].checkId, MANIFESTS)
            && CanPass(preflightIds, specs, Demanded(specs, selected, specs[k].checkId)))
  {
    hide IsExposed, Needs, Distinct, CanPass, PlanIds, Demanded;
    var id := specs[k].checkId;
    forall world, records | IsExposed(preflightIds, specs, selected, world, records, k)
      ensures Needs(specs, id, RUNTIME_RESOURCES) && !Needs(specs, id, MANIFESTS)
      ensures CanPass(preflightIds, specs, Demanded(specs, selected, id))
    {
      ExposedNeedsResources(preflightIds, specs, selected, world, records, k);
      LaunchedCanPass(preflightIds, specs, selected, world, records, k);
    }
    if Needs(specs, id, RUNTIME_RESOURCES) && !Needs(specs, id, MANIFESTS)
      && CanPass(preflightIds, specs, Demanded(specs, selected, id))
    {
      var records := RunWithoutManifests(preflightIds, specs, selected, k);
      assert IsExposed(preflightIds, specs, selected, ManifestsFail(), records, k);
    }
  }

  /** For closed selections of a topologically ordered plan the prerequisites alone decide. */
  lemma ExposedInOrderedPlan(preflightIds: seq<string>, specs: seq<CheckSpec>, selected: set<string>, k: nat)
    requires Distinct(PlanIds(preflightIds, specs)) && IsTopological(preflightIds, specs)
    requires MANIFESTS in preflightIds && RUNTIME_RESOURCES in preflightIds
    requires k < |specs| && ClosedUnderNeeds(specs, selected) && specs[k].checkId in selected
    ensures (exists world, records :: IsExposed(preflightIds, specs, selected, world, records, k))
      <==> Needs(specs, specs[k].checkId, RUNTIME_RESOURCES) && !Needs(specs, specs[k].checkId, MANIFESTS)
  {
    hide IsExposed, Needs, Distinct, IsTopological, ClosedUnderNeeds, PlanIds, CanPass;
    ExposedIff(preflightIds, specs, selected, k);
    NeedsCanPass(preflightIds, specs, selected, specs[k].checkId);
  }

  /** What a launched command needs was selected and stands in order. */
  lemma LaunchedCanPass(
    preflightIds: seq<string>, specs: seq<CheckSpec>, selected: set<string>, world: World, records: seq<Record>, k: nat)
    requires Distinct(PlanIds(preflightIds, specs)) && IsExposed(preflightIds, specs, selected, world, records, k)
    ensures CanPass(preflightIds, specs, Demanded(specs, selected, specs[k].checkId))
  {
    var id := specs[k].checkId;
    hide Needs, IsRun, WasLaunched, IsRequirementsPath, PassedBefore, Distinct, PlanIds;
    forall m, need | 0 <= m < |specs| && specs[m].checkId in Demanded(specs, selected, id) && need in specs[m].needs
      ensures need in Demanded(specs, selected, id) && need in PlanIds(preflightIds, specs)[..|preflightIds| + m]
    {
      DemandedWasLaunched(preflightIds, specs, selected, world, records, k, m);
      LaunchedNeedIsSelected(preflightIds, specs, selected, world, records, m, need);
      assert specs[m] in specs && IsNeed(specs, specs[m].checkId, need);
      NeedsNext(specs, id, specs[m].checkId, need);
    }
  }

  lemma DemandedWasLaunched(
    preflightIds: seq<string>, specs: seq<CheckSpec>, selected: set<string>, world: World, records: seq<Record>,
    k: nat, m: nat)
    requires IsRun(preflightIds, specs, selected, world, records) && Distinct(PlanIds(preflightIds, specs))
    requires k < |specs| && m < |specs| && WasLaunched(records[|preflightIds| + k])
    requires specs[m].checkId == specs[k].checkId || Needs(specs, specs[k].checkId, specs[m].checkId)
    ensures WasLaunched(records[|preflightIds| + m])
  {
    hide Needs, IsRun, WasLaunched, PassedBefore, Distinct, PlanIds;
    CommandId(preflightIds, specs, selected, world, records, k);
    if specs[m].checkId == specs[k].checkId {
      SameCommand(preflightIds, specs, k, m);
    } else {
      LaunchedAfterNeed(preflightIds, specs, selected, world, records, |preflightIds| + k, specs[m].checkId);
      PassedWasLaunched(preflightIds, specs, selected, world, records, |preflightIds| + k, m);
    }
  }

  lemma SameCommand(preflightIds: seq<string>, specs: seq<CheckSpec>, k: nat, m: nat)
    requires Distinct(PlanIds(preflightIds, specs))
    requires k < |specs| && m < |specs| && specs[k].checkId == specs[m].checkId
    ensures k == m
  {
    CommandsAreDistinct(preflightIds, specs);
  }

  lemma PassedWasLaunched(
    preflightIds: seq<string>, specs: seq<CheckSpec>, selected: set<string>, world: World, records: seq<Record>,
    i: nat, m: nat)
    requires IsRun(preflightIds, specs, selected, world, records) && Distinct(PlanIds(preflightIds, specs))
    requires i < |records| && m < |specs| && PassedBefore(records, i, specs[m].checkId)
    ensures WasLaunched(records[|preflightIds| + m])
  {
    hide IsRun, Distinct, WasLaunched;
    var j :| 0 <= j < i && records[j].id == specs[m].checkId && records[j].status == Passed;
    OneRecordPerCheck(preflightIds, specs, selected, world, records);
    DistinctPositions(PlanIds(preflightIds, specs));
    assert PlanIds(preflightIds, specs)[j] == PlanIds(preflightIds, specs)[|preflightIds| + m];
    PassedCommandWasLaunched(preflightIds, specs, selected, world, records, m);
  }

  lemma ExposedNeedsResources(
    preflightIds: seq<string>, specs: seq<CheckSpec>, selected: set<string>, world: World, records: seq<Record>, k: nat)
    requires Distinct(PlanIds(preflightIds, specs)) && MANIFESTS in preflightIds && RUNTIME_RESOURCES in preflightIds
    requires IsExposed(preflightIds, specs, selected, world, records, k)
    ensures Needs(specs, specs[k].checkId, RUNTIME_RESOURCES) && !Needs(specs, specs[k].checkId, MANIFESTS)
  {
    hide IsRun, Distinct, PlanIds, Requirements, PassedBefore, WasLaunched, Needs;
    var id, i := specs[k].checkId, |preflightIds| + k;
    var path :| IsRequirementsPath(specs, path) && path[0] == id && !PassedBefore(records, i, path[|path| - 1]);
    SpecIsNoInput(preflightIds, specs, k);
    CommandId(preflightIds, specs, selected, world, records, k);
    RequirementsPathEnds(preflightIds, specs, id, path);
    forall target | Needs(specs, id, target) ensures PassedBefore(records, i, target) {
      LaunchedAfterNeed(preflightIds, specs, selected, world, records, i, target);
    }
  }

  lemma LaunchedAfterNeed(
    preflightIds: seq<string>, specs: seq<CheckSpec>, selected: set<string>, world: World, records: seq<Record>,
    i: nat, target: string)
    requires IsRun(preflightIds, specs, selected, world, records) && Distinct(PlanIds(preflightIds, specs))
    requires i < |records| && WasLaunched(records[i]) && Needs(specs, records[i].id, target)
    ensures PassedBefore(records, i, target)
  {
    hide IsRun, Distinct, PlanIds;
    var needs :| IsNeedsPath(specs, needs) && needs[0] == records[i].id && needs[|needs| - 1] == target;
    LaunchedAfterPrerequisites(preflightIds, specs, selected, world, records, i, needs);
  }

  lemma CommandId(
    preflightIds: seq<string>, specs: seq<CheckSpec>, selected: set<string>, world: World, records: seq<Record>, k: nat)
    requires IsRun(preflightIds, specs, selected, world, records) && k < |specs|
    ensures |preflightIds| + k < |records| && records[|preflightIds| + k].id == specs[k].checkId
  {
    OneRecordPerCheck(preflightIds, specs, selected, world, records);
  }

  lemma SpecIsNoInput(preflightIds: seq<string>, specs: seq<CheckSpec>, k: nat)
    requires Distinct(PlanIds(preflightIds, specs)) && k < |specs|
    ensures specs[k].checkId !in preflightIds
  {
    var ids := PlanIds(preflightIds, specs);
    assert ids[|preflightIds| + k] == specs[k].checkId;
    forall j | 0 <= j < |preflightIds| ensures preflightIds[j] != specs[k].checkId { assert ids[j] == preflightIds[j]; }
  }

  /** The manifests fail, everything else passes. */
  function ManifestsFail(): World {
    World(id => if id == MANIFESTS then Failed else Passed, _ => Passed)
  }

  /** A run in which the manifests fail and a command behind the resources is launched all the same. */
  lemma RunWithoutManifests(
    preflightIds: seq<string>, specs: seq<CheckSpec>, selected: set<string>, k: nat)
    returns (records: seq<Record>)
    requires Distinct(PlanIds(preflightIds, specs))
    requires MANIFESTS in preflightIds && RUNTIME_RESOURCES in preflightIds
    requires k < |specs| && specs[k].checkId in selected
    requires Needs(specs, specs[k].checkId, RUNTIME_RESOURCES) && !Needs(specs, specs[k].checkId, MANIFESTS)
    requires CanPass(preflightIds, specs, Demanded(specs, selected, specs[k].checkId))
    ensures IsExposed(preflightIds, specs, selected, ManifestsFail(), records, k)
    ensures forall j :: 0 <= j < |records| && records[j].id == MANIFESTS ==> records[j].status in {Failed, NotRun}
  {
    var id, i, world := specs[k].checkId, |preflightIds| + k, ManifestsFail();
    SpecIsNoInput(preflightIds, specs, k);
    var good := Demanded(specs, selected, id);
    assert IsGoodFor(world, good);
    records := GoodRun(preflightIds, specs, selected, world, good);
    OneRecordPerCheck(preflightIds, specs, selected, world, records);
    assert records[i].id == id;
    PassedCommandWasLaunched(preflightIds, specs, selected, world, records, k);
    ManifestsDidNotPass(preflightIds, specs, selected, records);
    var path := PathToManifests(preflightIds, specs, id);
    assert !PassedBefore(records, i, path[|path| - 1]);
  }

  /** What a selected command needs is selected and, on a topological plan, stands earlier in it. */
  lemma NeedsCanPass(preflightIds: seq<string>, specs: seq<CheckSpec>, selected: set<string>, id: string)
    requires Distinct(PlanIds(preflightIds, specs)) && IsTopological(preflightIds, specs)
    requires ClosedUnderNeeds(specs, selected)
    ensures CanPass(preflightIds, specs, Demanded(specs, selected, id))
  {
    hide Needs, Requirements;
    var good := Demanded(specs, selected, id);
    forall m, need | 0 <= m < |specs| && specs[m].checkId in good && need in specs[m].needs
      ensures need in good && need in PlanIds(preflightIds, specs)[..|preflightIds| + m]
    {
      RequirementsOfPlanned(preflightIds, specs, m);
      assert specs[m] in specs && IsNeed(specs, specs[m].checkId, need);
      NeedsNext(specs, id, specs[m].checkId, need);
    }
  }

  lemma RequirementsOfPlanned(preflightIds: seq<string>, specs: seq<CheckSpec>, m: nat)
    requires Distinct(PlanIds(preflightIds, specs)) && m < |specs|
    ensures Requirements(specs, specs[m].checkId) == specs[m].needs
  {
    hide Requirements;
    CommandsAreDistinct(preflightIds, specs);
    RequirementsOfSpec(specs, m);
  }

  lemma CommandsAreDistinct(preflightIds: seq<string>, specs: seq<CheckSpec>)
    requires Distinct(PlanIds(preflightIds, specs))
    ensures forall a, b :: 0 <= a < b < |specs| ==> specs[a].checkId != specs[b].checkId
  {
    var ids, p := PlanIds(preflightIds, specs), |preflightIds|;
    DistinctPositions(ids);
    hide Distinct;
    assert forall a :: 0 <= a < |specs| ==> ids[p + a] == specs[a].checkId;
  }

  lemma ManifestsDidNotPass(
    preflightIds: seq<string>, specs: seq<CheckSpec>, selected: set<string>, records: seq<Record>)
    requires Distinct(PlanIds(preflightIds, specs)) && MANIFESTS in preflightIds
    requires IsRun(preflightIds, specs, selected, ManifestsFail(), records)
    ensures forall j :: 0 <= j < |records| && records[j].id == MANIFESTS ==> records[j].status in {Failed, NotRun}
  {
    OneRecordPerCheck(preflightIds, specs, selected, ManifestsFail(), records);
    InputIsNoCommand(preflightIds, specs, MANIFESTS);
    forall j | 0 <= j < |records| ensures records[j].id == MANIFESTS ==> records[j].status in {Failed, NotRun} {
      if j < |preflightIds| {
        PreflightAt(preflightIds, specs, selected, ManifestsFail(), records, j);
      } else {
        var spec := specs[j - |preflightIds|];
        assert records[j].id == spec.checkId && spec in specs;
      }
    }
  }

  /** A path of declared needs to the resources goes on, for the selection, to the manifests. */
  lemma PathToManifests(preflightIds: seq<string>, specs: seq<CheckSpec>, id: string) returns (path: seq<string>)
    requires Distinct(PlanIds(preflightIds, specs)) && RUNTIME_RESOURCES in preflightIds
    requires Needs(specs, id, RUNTIME_RESOURCES)
    ensures IsRequirementsPath(specs, path) && path[0] == id && path[|path| - 1] == MANIFESTS
  {
    var needs :| IsNeedsPath(specs, needs) && needs[0] == id && needs[|needs| - 1] == RUNTIME_RESOURCES;
    InputIsNoCommand(preflightIds, specs, RUNTIME_RESOURCES);
    RequirementsOfOther(specs, RUNTIME_RESOURCES);
    path := needs + [MANIFESTS];
    hide Requirements, Distinct, PlanIds;
    forall i: nat | i + 1 < |path| ensures path[i + 1] in Requirements(specs, path[i]) {
      if i + 1 < |needs| {
        assert IsNeed(specs, needs[i], needs[i + 1]);
        var s :| s in specs && s.checkId == needs[i] && needs[i + 1] in s.needs;
        var m :| 0 <= m < |specs| && specs[m] == s;
        RequirementsOfPlanned(preflightIds, specs, m);
      }
    }
  }

  /** One command that needs the resources: asked for, it selects the manifests too, and runs although they fail. */
  lemma LaunchedWithoutManifests(preflightIds: seq<string>, id: string) returns (records: seq<Record>)
    requires Distinct(preflightIds + [id]) && MANIFESTS in preflightIds && RUNTIME_RESOURCES in preflightIds
    ensures var specs := [CheckSpec(id, "native", [RUNTIME_RESOURCES])];
      var selected := {id, RUNTIME_RESOURCES, MANIFESTS};
      && IsLeastClosure(specs, {id}, selected)
      && IsRun(preflightIds, specs, selected, ManifestsFail(), records) && WasLaunched(records[|preflightIds|])
      && exists j :: 0 <= j < |records| && records[j].id == MANIFESTS && records[j].status == Failed
  {
    var specs, selected := [CheckSpec(id, "native", [RUNTIME_RESOURCES])], {id, RUNTIME_RESOURCES, MANIFESTS};
    assert PlanIds(preflightIds, specs) == preflightIds + [id];
    SpecIsNoInput(preflightIds, specs, 0);
    OneCommandCloses(specs, id, selected);
    OneCommandNeeds(specs, id);
    assert IsTopological(preflightIds, specs) by {
      assert PlanIds(preflightIds, specs)[..|preflightIds| + 0] == preflightIds;
    }
    NeedsCanPass(preflightIds, specs, selected, id);
    records := RunWithoutManifests(preflightIds, specs, selected, 0);
    OneRecordPerCheck(preflightIds, specs, selected, ManifestsFail(), records);
    var j :| 0 <= j < |preflightIds| && preflightIds[j] == MANIFESTS;
    assert PlanIds(preflightIds, specs)[j] == MANIFESTS && records[j].id == MANIFESTS;
  }

  lemma OneCommandCloses(specs: seq<CheckSpec>, id: string, selected: set<string>)
    requires specs == [CheckSpec(id, "native", [RUNTIME_RESOURCES])] && id != RUNTIME_RESOURCES && id != MANIFESTS
    requires selected == {id, RUNTIME_RESOURCES, MANIFESTS}
    ensures IsLeastClosure(specs, {id}, selected)
  {
    assert specs[..0] == [];
    forall x ensures Requirements(specs, x) ==
      if x == id then [RUNTIME_RESOURCES] else if x == RUNTIME_RESOURCES then [MANIFESTS] else []
    {
    }
    forall t | {id} <= t && ClosedUnderNeeds(specs, t) ensures selected <= t {
      assert RUNTIME_RESOURCES in Requirements(specs, id) && MANIFESTS in Requirements(specs, RUNTIME_RESOURCES);
    }
  }

  lemma OneCommandNeeds(specs: seq<CheckSpec>, id: string)
    requires specs == [CheckSpec(id, "native", [RUNTIME_RESOURCES])] && id != RUNTIME_RESOURCES && id != MANIFESTS
    ensures Needs(specs, id, RUNTIME_RESOURCES) && !Needs(specs, id, MANIFESTS)
  {
    assert specs[0] in specs && IsNeed(specs, id, RUNTIME_RESOURCES);
    NeedsNext(specs, id, id, RUNTIME_RESOURCES);
    forall path | IsNeedsPath(specs, path) && path[0] == id ensures path[|path| - 1] == RUNTIME_RESOURCES {
      assert IsNeed(specs, path[0], path[0 + 1]);
      assert |path| > 2 ==> IsNeed(specs, path[1], path[1 + 1]);
    }
  }
}
