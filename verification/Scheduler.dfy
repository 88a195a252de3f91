/**
 The audit runner: closing a selection under prerequisites, running the plan in
 order, blocking what depends on anything that has not passed, and folding the
 records into one verdict.
 */
module Scheduler {
  import opened Wrappers

  datatype CheckSpec = CheckSpec(checkId: string, phase: string, needs: seq<string>)

  datatype Status = Passed | Failed | Blocked | NotRun

  /** What running a check can report. */
  type Outcome = s: Status | s != NotRun witness Passed

  /** Why a record has its status. */
  datatype Origin = Ran | SelectionFilter | PrerequisiteNotPassed(blockedBy: seq<string>)

  datatype Record = Record(id: string, isCommand: bool, status: Status, origin: Origin, affected: seq<string>)

  function SpecIds(specs: seq<CheckSpec>): (ids: seq<string>)
    ensures |ids| == |specs| && forall k :: 0 <= k < |ids| ==> ids[k] == specs[k].checkId
  {
    seq(|specs|, k requires 0 <= k < |specs| => specs[k].checkId)
  }

  // ----- selection -----

  datatype Request = Phase(name: string) | Only(tokens: seq<string>)
  datatype SelectionError = UnknownCheckOrPhase(token: string)

  const PHASES: set<string> := {"rust", "web", "python", "native", "packaging"}

  function ToSet<T(==)>(xs: seq<T>): set<T> {
    set x | x in xs
  }

  /** The check ids an alias stands for. */
  function Alias(token: string, preflightIds: seq<string>, specs: seq<CheckSpec>): Option<set<string>> {
    if token == "all" then Some(ToSet(preflightIds) + ToSet(SpecIds(specs)))
    else if token == "preflight" then Some(ToSet(preflightIds))
    else if token in PHASES then Some(set s | s in specs && s.phase == token :: s.checkId)
    else None
  }

  /** What one token selects: nothing if it is empty, an alias, or a single check; no other token is known. */
  function TokenIds(token: string, preflightIds: seq<string>, specs: seq<CheckSpec>): Option<set<string>> {
    if token == "" then Some({})
    else
      match Alias(token, preflightIds, specs)
      case Some(ids) => Some(ids)
      case None => if token in preflightIds || token in SpecIds(specs) then Some({token}) else None
  }

  function SeedOf(
    tokens: seq<string>, preflightIds: seq<string>, specs: seq<CheckSpec>): Result<set<string>, SelectionError>
  {
    if tokens == [] then Ok({})
    else
      match TokenIds(tokens[0], preflightIds, specs)
      case None => Err(UnknownCheckOrPhase(tokens[0]))
      case Some(here) =>
        match SeedOf(tokens[1..], preflightIds, specs)
        case Err(e) => Err(e)
        case Ok(rest) => Ok(here + rest)
  }

  /** What was asked for, before prerequisites are added. */
  function Seed(
    request: Request, preflightIds: seq<string>, specs: seq<CheckSpec>): Result<set<string>, SelectionError>
  {
    match request
    case Only(tokens) => SeedOf(tokens, preflightIds, specs)
    case Phase(name) =>
      match Alias(name, preflightIds, specs)
      case Some(ids) => Ok(ids)
      case None => Err(UnknownCheckOrPhase(name))
  }

  predicate IsKnown(token: string, preflightIds: seq<string>, specs: seq<CheckSpec>) {
    token == "" || Alias(token, preflightIds, specs).Some? || token in preflightIds || token in SpecIds(specs)
  }

  /** The request names a token that is not known, the first of them being `token`. */
  ghost predicate FirstUnknown(request: Request, preflightIds: seq<string>, specs: seq<CheckSpec>, token: string) {
    match request
    case Phase(name) => token == name && Alias(name, preflightIds, specs).None?
    case Only(tokens) =>
      exists k :: 0 <= k < |tokens| && IsFirstUnknown(tokens, preflightIds, specs, k) && tokens[k] == token
  }

  ghost predicate IsFirstUnknown(tokens: seq<string>, preflightIds: seq<string>, specs: seq<CheckSpec>, k: nat) {
    && k < |tokens| && !IsKnown(tokens[k], preflightIds, specs)
    && forall j :: 0 <= j < k ==> IsKnown(tokens[j], preflightIds, specs)
  }

  /** The request asks for a check by a phase name, an alias or its own id. */
  ghost predicate AsksFor(request: Request, preflightIds: seq<string>, specs: seq<CheckSpec>, id: string) {
    match request
    case Phase(name) => Alias(name, preflightIds, specs).Some? && id in Alias(name, preflightIds, specs).value
    case Only(tokens) => exists k :: 0 <= k < |tokens| && Names(tokens[k], preflightIds, specs, id)
  }

  predicate Names(token: string, preflightIds: seq<string>, specs: seq<CheckSpec>, id: string) {
    TokenIds(token, preflightIds, specs).Some? && id in TokenIds(token, preflightIds, specs).value
  }

  /** What a token names: everything, the input checks, the commands of a phase, or one check of the plan. */
  ghost predicate Denotes(token: string, preflightIds: seq<string>, specs: seq<CheckSpec>, id: string) {
    if token == "" then false
    else if token == "all" then id in preflightIds || exists s :: s in specs && s.checkId == id
    else if token == "preflight" then id in preflightIds
    else if token in ["rust", "web", "python", "native", "packaging"] then
      exists s :: s in specs && s.checkId == id && s.phase == token
    else id == token && (id in preflightIds || exists s :: s in specs && s.checkId == id)
  }

  lemma InSpecIds(specs: seq<CheckSpec>, id: string)
    ensures id in SpecIds(specs) <==> exists s :: s in specs && s.checkId == id
  {
    if id in SpecIds(specs) {
      var k :| 0 <= k < |specs| && SpecIds(specs)[k] == id;
      assert specs[k] in specs;
    }
    if s :| s in specs && s.checkId == id {
      var k :| 0 <= k < |specs| && specs[k] == s;
      assert SpecIds(specs)[k] == id;
    }
  }

  /** A known token names exactly the checks it denotes. */
  lemma TokensDenote(token: string, preflightIds: seq<string>, specs: seq<CheckSpec>, id: string)
    ensures Names(token, preflightIds, specs, id) <==> Denotes(token, preflightIds, specs, id)
    ensures IsKnown(token, preflightIds, specs) <==>
      || token in ["", "all", "preflight", "rust", "web", "python", "native", "packaging"]
      || Denotes(token, preflightIds, specs, token)
  {
    InSpecIds(specs, id);
    InSpecIds(specs, token);
    hide SpecIds;
  }

  lemma {:induction false} SeedOfMeans(tokens: seq<string>, preflightIds: seq<string>, specs: seq<CheckSpec>)
    ensures var r := SeedOf(tokens, preflightIds, specs);
      && (r.Ok? <==> forall k :: 0 <= k < |tokens| ==> IsKnown(tokens[k], preflightIds, specs))
      && (r.Err? ==> FirstUnknown(Only(tokens), preflightIds, specs, r.error.token))
      && (r.Ok? ==> forall id :: id in r.value <==> AsksFor(Only(tokens), preflightIds, specs, id))
    decreases |tokens|
  {
    hide Alias, SpecIds;
    if tokens != [] {
      var rest := tokens[1..];
      SeedOfMeans(rest, preflightIds, specs);
      assert TokenIds(tokens[0], preflightIds, specs).Some? <==> IsKnown(tokens[0], preflightIds, specs);
      hide TokenIds, IsKnown;
      assert forall k :: 1 <= k < |tokens| ==> tokens[k] == rest[k - 1];
      if TokenIds(tokens[0], preflightIds, specs).None? {
        assert IsFirstUnknown(tokens, preflightIds, specs, 0);
      } else if SeedOf(rest, preflightIds, specs).Err? {
        var k :| 0 <= k < |rest| && IsFirstUnknown(rest, preflightIds, specs, k)
          && rest[k] == SeedOf(rest, preflightIds, specs).error.token;
        assert IsFirstUnknown(tokens, preflightIds, specs, k + 1);
      } else {
        forall id ensures AsksFor(Only(tokens), preflightIds, specs, id) <==>
          Names(tokens[0], preflightIds, specs, id) || AsksFor(Only(rest), preflightIds, specs, id)
        {
          if k :| 0 <= k < |rest| && Names(rest[k], preflightIds, specs, id) {
            assert Names(tokens[k + 1], preflightIds, specs, id);
          }
        }
      }
    }
  }

  lemma UnknownIsUnknown(tokens: seq<string>, preflightIds: seq<string>, specs: seq<CheckSpec>, k: nat)
    requires IsFirstUnknown(tokens, preflightIds, specs, k)
    ensures k < |tokens| && !IsKnown(tokens[k], preflightIds, specs)
  {
  }

  /** A request fails at its first unknown token, or asks for exactly the seed. */
  lemma SeedMeans(request: Request, preflightIds: seq<string>, specs: seq<CheckSpec>)
    ensures var r := Seed(request, preflightIds, specs);
      && (r.Err? <==> exists token :: FirstUnknown(request, preflightIds, specs, token))
      && (r.Err? ==> FirstUnknown(request, preflightIds, specs, r.error.token))
      && (r.Ok? ==> forall id :: id in r.value <==> AsksFor(request, preflightIds, specs, id))
  {
    hide Alias, SpecIds, TokenIds, IsKnown, SeedOf, IsFirstUnknown;
    match request {
      case Phase(name) =>
        assert Alias(name, preflightIds, specs).None? ==> FirstUnknown(request, preflightIds, specs, name);
      case Only(tokens) =>
        SeedOfMeans(tokens, preflightIds, specs);
        forall token | FirstUnknown(request, preflightIds, specs, token)
          ensures Seed(request, preflightIds, specs).Err?
        {
          var k :| 0 <= k < |tokens| && IsFirstUnknown(tokens, preflightIds, specs, k) && tokens[k] == token;
          UnknownIsUnknown(tokens, preflightIds, specs, k);
        }
    }
  }

  /** Every check a request asks for is in the plan. */
  lemma SeedIsPlanned(request: Request, preflightIds: seq<string>, specs: seq<CheckSpec>)
    requires Seed(request, preflightIds, specs).Ok?
    ensures Seed(request, preflightIds, specs).value <= ToSet(preflightIds + SpecIds(specs))
  {
    SeedMeans(request, preflightIds, specs);
    forall id | AsksFor(request, preflightIds, specs, id) ensures id in preflightIds + SpecIds(specs) {
      match request {
        case Phase(name) => AliasIsPlanned(name, preflightIds, specs);
        case Only(tokens) =>
          var k :| 0 <= k < |tokens| && Names(tokens[k], preflightIds, specs, id);
          AliasIsPlanned(tokens[k], preflightIds, specs);
      }
    }
  }

  lemma AliasIsPlanned(token: string, preflightIds: seq<string>, specs: seq<CheckSpec>)
    ensures var ids := Alias(token, preflightIds, specs);
      ids.Some? ==> forall id :: id in ids.value ==> id in preflightIds + SpecIds(specs)
  {
    forall s | s in specs ensures s.checkId in SpecIds(specs) {
      var k :| 0 <= k < |specs| && specs[k] == s;
      assert SpecIds(specs)[k] == s.checkId;
    }
  }

  const RUNTIME_RESOURCES := "preflight:runtime-resources"
  const MANIFESTS := "preflight:manifests"

  const PREFLIGHT_IDS: seq<string> := [
    "preflight:rustc", "preflight:cargo", "preflight:node", "preflight:pnpm", "preflight:python", "preflight:commit",
    "preflight:msvc", "preflight:sdk", "preflight:browser", MANIFESTS, RUNTIME_RESOURCES,
    "preflight:release-executables"]

  /** The prerequisites of an id; a later spec of the same id wins. */
  function Requirements(specs: seq<CheckSpec>, id: string): seq<string> {
    if specs == [] then if id == RUNTIME_RESOURCES then [MANIFESTS] else []
    else if specs[|specs| - 1].checkId == id then specs[|specs| - 1].needs
    else Requirements(specs[..|specs| - 1], id)
  }

  ghost predicate ClosedUnderNeeds(specs: seq<CheckSpec>, ids: set<string>) {
    forall id, r :: id in ids && r in Requirements(specs, id) ==> r in ids
  }

  /** The least prerequisite-closed superset. */
  ghost predicate IsLeastClosure(specs: seq<CheckSpec>, seed: set<string>, closure: set<string>) {
    && seed <= closure && ClosedUnderNeeds(specs, closure)
    && forall t :: seed <= t && ClosedUnderNeeds(specs, t) ==> closure <= t
  }

  ghost function AllNeeds(specs: seq<CheckSpec>): set<string> {
    {MANIFESTS} + set s, r | s in specs && r in s.needs :: r
  }

  lemma {:induction false} RequirementsAreNeeds(specs: seq<CheckSpec>, id: string)
    ensures forall r :: r in Requirements(specs, id) ==> r in AllNeeds(specs)
    decreases |specs|
  {
    if specs != [] {
      var last, init := specs[|specs| - 1], specs[..|specs| - 1];
      assert last in specs && forall s :: s in init ==> s in specs;
      if last.checkId != id { RequirementsAreNeeds(init, id); }
    }
  }

  method SelectionFor(request: Request, preflightIds: seq<string>, specs: seq<CheckSpec>)
    returns (r: Result<set<string>, SelectionError>)
    ensures r.Err? <==> exists token :: FirstUnknown(request, preflightIds, specs, token)
    ensures r.Err? ==> FirstUnknown(request, preflightIds, specs, r.error.token)
    ensures r.Ok? ==>
      (&& Seed(request, preflightIds, specs).Ok?
       && (forall id :: id in Seed(request, preflightIds, specs).value <==> AsksFor(request, preflightIds, specs, id))
       && IsLeastClosure(specs, Seed(request, preflightIds, specs).value, r.value))
  {
    hide FirstUnknown, AsksFor, Seed;
    SeedMeans(request, preflightIds, specs);
    var seed := Seed(request, preflightIds, specs);
    if seed.Err? { return Err(seed.error); }
    var selected := seed.value;
    ghost var universe := selected + AllNeeds(specs);
    var changed := true;
    while changed
      invariant seed.value <= selected <= universe
      invariant forall t :: seed.value <= t && ClosedUnderNeeds(specs, t) ==> selected <= t
      invariant !changed ==> ClosedUnderNeeds(specs, selected)
      decreases universe - selected, changed
    {
      changed := false;
      ghost var before := selected;
      var pending := selected;
      while pending != {}
        invariant pending <= before <= selected <= universe
        invariant forall t :: seed.value <= t && ClosedUnderNeeds(specs, t) ==> selected <= t
        invariant changed <==> selected != before
        invariant forall id, n :: id in before - pending && n in Requirements(specs, id) ==> n in selected
        decreases pending
      {
        var checkId :| checkId in pending;
        pending := pending - {checkId};
        var requirements := Requirements(specs, checkId);
        RequirementsAreNeeds(specs, checkId);
        for k := 0 to |requirements|
          invariant before <= selected <= universe
          invariant forall t :: seed.value <= t && ClosedUnderNeeds(specs, t) ==> selected <= t
          invariant changed <==> selected != before
          invariant forall id, n :: id in before - pending - {checkId} && n in Requirements(specs, id) ==> n in selected
          invariant forall j :: 0 <= j < k ==> requirements[j] in selected
        {
          if requirements[k] !in selected {
            selected := selected + {requirements[k]};
            changed := true;
          }
        }
      }
    }
    return Ok(selected);
  }

  // ----- who is affected by a missing input -----

  /** `path` leads from a spec that needs `source`, each next spec needing the one before it. */
  ghost predicate IsDependencyPath(specs: seq<CheckSpec>, source: string, path: seq<CheckSpec>) {
    && path != []
    && (forall s :: s in path ==> s in specs)
    && source in path[0].needs
    && forall i :: 0 <= i < |path| - 1 ==> path[i].checkId in path[i + 1].needs
  }

  ghost predicate DependsOn(specs: seq<CheckSpec>, id: string, source: string) {
    exists path: seq<CheckSpec> :: IsDependencyPath(specs, source, path) && path[|path| - 1].checkId == id
  }

  lemma DirectDependence(specs: seq<CheckSpec>, spec: CheckSpec, source: string)
    requires spec in specs && source in spec.needs
    ensures DependsOn(specs, spec.checkId, source)
  {
    assert IsDependencyPath(specs, source, [spec]);
  }

  lemma NextDependence(specs: seq<CheckSpec>, spec: CheckSpec, id: string, source: string)
    requires spec in specs && id in spec.needs && DependsOn(specs, id, source)
    ensures DependsOn(specs, spec.checkId, source)
  {
    var path: seq<CheckSpec> :| IsDependencyPath(specs, source, path) && path[|path| - 1].checkId == id;
    assert IsDependencyPath(specs, source, path + [spec]);
  }

  /** A set with the direct dependants, closed under dependence, has every transitive dependant. */
  lemma {:induction false} ClosedHasDependants(
    specs: seq<CheckSpec>, source: string, affected: set<string>, path: seq<CheckSpec>)
    requires forall s: CheckSpec :: s in specs && source in s.needs ==> s.checkId in affected
    requires forall s: CheckSpec, n :: s in specs && n in s.needs && n in affected ==> s.checkId in affected
    requires IsDependencyPath(specs, source, path)
    ensures path[|path| - 1].checkId in affected
    decreases |path|
  {
    if |path| > 1 {
      var init := path[..|path| - 1];
      assert forall s :: s in init ==> s in path;
      ClosedHasDependants(specs, source, affected, init);
      assert path[|path| - 1] in path && path[|path| - 2].checkId in path[|path| - 1].needs;
    } else {
      assert path[0] in path;
    }
  }

  function IdsIn(specs: seq<CheckSpec>, ids: set<string>): seq<string> {
    if specs == [] then []
    else (if specs[0].checkId in ids then [specs[0].checkId] else []) + IdsIn(specs[1..], ids)
  }

  lemma {:induction false} IdsInMeans(specs: seq<CheckSpec>, ids: set<string>)
    ensures forall id :: id in IdsIn(specs, ids) <==> id in ids && exists s :: s in specs && s.checkId == id
    decreases |specs|
  {
    if specs != [] {
      IdsInMeans(specs[1..], ids);
      assert specs == [specs[0]] + specs[1..];
    }
  }

  predicate NeedsAnyOf(spec: CheckSpec, ids: set<string>) {
    exists k :: 0 <= k < |spec.needs| && spec.needs[k] in ids
  }

  function DirectDependants(specs: seq<CheckSpec>, source: string): set<string> {
    set s | s in specs && source in s.needs :: s.checkId
  }

  lemma DirectDependantsDepend(specs: seq<CheckSpec>, source: string)
    ensures forall id :: id in DirectDependants(specs, source) ==> DependsOn(specs, id, source)
    ensures DirectDependants(specs, source) <= ToSet(SpecIds(specs))
  {
    hide DependsOn;
    forall id | id in DirectDependants(specs, source) ensures DependsOn(specs, id, source) && id in SpecIds(specs) {
      var s :| s in specs && source in s.needs && s.checkId == id;
      DirectDependence(specs, s, source);
      var k :| 0 <= k < |specs| && specs[k] == s;
      assert SpecIds(specs)[k] == id;
    }
  }

  /** Exactly the transitive dependants among the specs, in plan order. */
  method AffectedCommandChecks(source: string, specs: seq<CheckSpec>) returns (result: seq<string>)
    ensures forall id :: id in result <==> DependsOn(specs, id, source)
    ensures exists ids :: result == IdsIn(specs, ids)
  {
    hide DependsOn, DirectDependants, SpecIds;
    var affected := DirectDependants(specs, source);
    DirectDependantsDepend(specs, source);
    var changed := true;
    while changed
      invariant DirectDependants(specs, source) <= affected <= ToSet(SpecIds(specs))
      invariant forall id :: id in affected ==> DependsOn(specs, id, source)
      invariant !changed ==> forall j :: 0 <= j < |specs| && NeedsAnyOf(specs[j], affected) ==>
        specs[j].checkId in affected
      decreases ToSet(SpecIds(specs)) - affected, changed
    {
      changed := false;
      ghost var before := affected;
      for k := 0 to |specs|
        invariant before <= affected <= ToSet(SpecIds(specs))
        invariant forall id :: id in affected ==> DependsOn(specs, id, source)
        invariant changed <==> affected != before
        invariant !changed ==> forall j :: 0 <= j < k && NeedsAnyOf(specs[j], affected) ==> specs[j].checkId in affected
      {
        var spec := specs[k];
        if spec.checkId !in affected && NeedsAnyOf(spec, affected) {
          AffectedNext(specs, k, affected, source);
          affected := affected + {spec.checkId};
          changed := true;
        }
      }
    }
    result := IdsIn(specs, affected);
    AffectedIsExact(specs, source, affected);
  }

  lemma AffectedNext(specs: seq<CheckSpec>, k: nat, affected: set<string>, source: string)
    requires k < |specs| && NeedsAnyOf(specs[k], affected)
    requires forall id :: id in affected ==> DependsOn(specs, id, source)
    ensures DependsOn(specs, specs[k].checkId, source)
    ensures specs[k].checkId in ToSet(SpecIds(specs))
  {
    hide DependsOn;
    var n :| 0 <= n < |specs[k].needs| && specs[k].needs[n] in affected;
    NextDependence(specs, specs[k], specs[k].needs[n], source);
    assert SpecIds(specs)[k] in SpecIds(specs);
  }

  lemma AffectedIsExact(specs: seq<CheckSpec>, source: string, affected: set<string>)
    requires DirectDependants(specs, source) <= affected
    requires forall j :: 0 <= j < |specs| && NeedsAnyOf(specs[j], affected) ==> specs[j].checkId in affected
    requires forall id :: id in affected ==> DependsOn(specs, id, source)
    ensures forall id :: id in IdsIn(specs, affected) <==> DependsOn(specs, id, source)
  {
    IdsInMeans(specs, affected);
    forall s: CheckSpec, n | s in specs && n in s.needs && n in affected ensures s.checkId in affected {
      var j :| 0 <= j < |specs| && specs[j] == s;
      var k :| 0 <= k < |s.needs| && s.needs[k] == n;
      assert NeedsAnyOf(specs[j], affected);
    }
    forall id | DependsOn(specs, id, source) ensures id in affected && exists s :: s in specs && s.checkId == id {
      var path: seq<CheckSpec> :| IsDependencyPath(specs, source, path) && path[|path| - 1].checkId == id;
      ClosedHasDependants(specs, source, affected, path);
      assert path[|path| - 1] in path;
    }
  }

  // ----- running the plan -----

  /** The outcomes of one run: what each check reports if it is run. */
  datatype World = World(preflight: string -> Outcome, command: string -> Outcome)

  /** The status last recorded for an id, if any. */
  function StatusOf(records: seq<Record>, id: string): (r: Option<Status>)
    ensures r.Some? ==> exists j :: 0 <= j < |records| && IsLastOf(records, id, j) && records[j].status == r.value
    ensures r.None? ==> forall j :: 0 <= j < |records| ==> records[j].id != id
  {
    if records == [] then None
    else
      var last := records[|records| - 1];
      if last.id == id then assert IsLastOf(records, id, |records| - 1); Some(last.status)
      else
        var init := records[..|records| - 1];
        var r := StatusOf(init, id);
        assert forall j :: 0 <= j < |init| && IsLastOf(init, id, j) ==>
          IsLastOf(records, id, j) && records[j] == init[j];
        r
  }

  /** The j-th record is the last one of its id. */
  predicate IsLastOf(records: seq<Record>, id: string, j: nat) {
    j < |records| && records[j].id == id && forall i :: j < i < |records| ==> records[i].id != id
  }

  predicate HasPassed(records: seq<Record>, id: string) {
    StatusOf(records, id) == Some(Passed)
  }

  function NotPassed(needs: seq<string>, records: seq<Record>): seq<string> {
    if needs == [] then []
    else (if HasPassed(records, needs[0]) then [] else [needs[0]]) + NotPassed(needs[1..], records)
  }

  predicate NeedsPassed(spec: CheckSpec, records: seq<Record>) {
    forall k :: 0 <= k < |spec.needs| ==> HasPassed(records, spec.needs[k])
  }

  function CommandRecord(spec: CheckSpec, records: seq<Record>, selected: set<string>, world: World): Record {
    if spec.checkId !in selected then Record(spec.checkId, true, NotRun, SelectionFilter, [])
    else if !NeedsPassed(spec, records) then
      Record(spec.checkId, true, Blocked, PrerequisiteNotPassed(NotPassed(spec.needs, records)), [])
    else Record(spec.checkId, true, world.command(spec.checkId), Ran, [])
  }

  /** The records after the first `n` commands of the plan, on top of the preflight records. */
  function RecordsAfter(
    preflight: seq<Record>, specs: seq<CheckSpec>, selected: set<string>, world: World, n: nat): (r: seq<Record>)
    requires n <= |specs|
    ensures |r| == |preflight| + n
  {
    if n == 0 then preflight
    else
      var earlier := RecordsAfter(preflight, specs, selected, world, n - 1);
      earlier + [CommandRecord(specs[n - 1], earlier, selected, world)]
  }

  /** A preflight record: filtered, or run, naming its dependants if it is blocked. */
  ghost predicate IsPreflightRecord(
    record: Record, id: string, specs: seq<CheckSpec>, selected: set<string>, world: World)
  {
    && record.id == id && !record.isCommand
    && record.status == (if id in selected then world.preflight(id) else NotRun)
    && record.origin == (if id in selected then Ran else SelectionFilter)
    && (if record.status == Blocked then forall a :: a in record.affected <==> DependsOn(specs, a, id)
        else record.affected == [])
  }

  ghost predicate ArePreflightRecords(
    records: seq<Record>, ids: seq<string>, specs: seq<CheckSpec>, selected: set<string>, world: World)
  {
    && |records| == |ids|
    && forall k :: 0 <= k < |ids| ==> IsPreflightRecord(records[k], ids[k], specs, selected, world)
  }

  method RunAudit(
    preflightIds: seq<string>, specs: seq<CheckSpec>, selected: set<string>, world: World)
    returns (records: seq<Record>)
    ensures |records| == |preflightIds| + |specs|
    ensures ArePreflightRecords(records[..|preflightIds|], preflightIds, specs, selected, world)
    ensures records == RecordsAfter(records[..|preflightIds|], specs, selected, world, |specs|)
  {
    hide DependsOn;
    records := [];
    for k := 0 to |preflightIds|
      invariant |records| == k
      invariant forall j :: 0 <= j < k ==> IsPreflightRecord(records[j], preflightIds[j], specs, selected, world)
    {
      var id := preflightIds[k];
      var record := Record(id, false, NotRun, SelectionFilter, []);
      if id in selected {
        record := Record(id, false, world.preflight(id), Ran, []);
        if record.status == Blocked {
          var affected := AffectedCommandChecks(id, specs);
          record := record.(affected := affected);
        }
      }
      records := records + [record];
    }
    ghost var preflight := records;
    for k := 0 to |specs|
      invariant records == RecordsAfter(preflight, specs, selected, world, k)
      invariant records[..|preflight|] == preflight
    {
      var record := CommandRecord(specs[k], records, selected, world);
      records := records + [record];
    }
  }

  // ----- the verdict -----

  predicate HasStatus(records: seq<Record>, selected: set<string>, status: Status) {
    exists k :: 0 <= k < |records| && records[k].id in selected && records[k].status == status
  }

  /** The status folding of the report, over the records of selected checks. */
  function ReportStatus(records: seq<Record>, selected: set<string>): Status {
    if HasStatus(records, selected, Failed) then Failed
    else if HasStatus(records, selected, Blocked) then Blocked
    else if HasStatus(records, selected, NotRun) then NotRun
    else Passed
  }
}
