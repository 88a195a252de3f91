/** The check that the parent links of a map artifact form a forest. */
module ParentForest {
  import opened Wrappers

  type Parents = map<string, Option<string>>

  datatype MapError =
    | UnsupportedSchemaVersion
    | EmptyText
    | TextTooLong
    | ControlCharacter
    | MissingValue
    | TooManyItems
    | InvalidIdentifier(value: string)
    | DuplicateIdentifier(value: string)
    | UnknownReference(value: string)
    | InvalidEndpoint(at: string)
    | ParentCycle(at: string)

  // ----- parent links -----

  ghost predicate ParentsExist(parents: Parents, nodeIds: set<string>) {
    forall n :: n in parents && parents[n].Some? ==> parents[n].value in nodeIds
  }

  /** Ranks that strictly decrease along every parent link between known nodes. */
  ghost predicate IsRank(parents: Parents, rank: map<string, nat>) {
    && parents.Keys <= rank.Keys
    && forall n :: n in parents && parents[n].Some? && parents[n].value in parents ==> rank[parents[n].value] < rank[n]
  }

  ghost predicate IsForest(parents: Parents) {
    exists rank :: IsRank(parents, rank)
  }

  /** The node reached after `k` parent links; an unknown id has no parent. */
  ghost function Walk(parents: Parents, n: string, k: nat): Option<string> {
    if k == 0 then Some(n)
    else
      match Walk(parents, n, k - 1)
      case None => None
      case Some(m) => if m in parents then parents[m] else None
  }

  ghost predicate OnCycle(parents: Parents, n: string) {
    exists k :: k > 0 && Walk(parents, n, k) == Some(n)
  }

  ghost predicate Ends(parents: Parents, n: string) {
    exists k :: Walk(parents, n, k) == None
  }

  lemma {:induction false} WalkOn(parents: Parents, n: string, i: nat, j: nat)
    requires Walk(parents, n, i).Some?
    ensures Walk(parents, n, i + j) == Walk(parents, Walk(parents, n, i).value, j)
    decreases j
  {
    if j > 0 {
      WalkOn(parents, n, i, j - 1);
    }
  }

  /** Along a walk that stays on known nodes, ranks fall. */
  lemma {:induction false} RanksFall(parents: Parents, rank: map<string, nat>, n: string, k: nat)
    requires IsRank(parents, rank) && k > 0 && Walk(parents, n, k).Some? && Walk(parents, n, k).value in parents
    ensures n in parents && rank[Walk(parents, n, k).value] < rank[n]
    decreases k
  {
    if k > 1 { RanksFall(parents, rank, n, k - 1); }
  }

  lemma ForestHasNoCycle(parents: Parents, n: string)
    requires IsForest(parents)
    ensures !OnCycle(parents, n)
  {
    var rank :| IsRank(parents, rank);
    forall k | k > 0 && Walk(parents, n, k) == Some(n) ensures false {
      WalkOn(parents, n, k, 1);
      FirstStepIsKnown(parents, n, k);
      RanksFall(parents, rank, n, k);
    }
  }

  lemma {:induction false} FirstStepIsKnown(parents: Parents, n: string, k: nat)
    requires k > 0 && Walk(parents, n, k).Some?
    ensures n in parents
    decreases k
  {
    if k > 1 { FirstStepIsKnown(parents, n, k - 1); }
  }

  lemma {:induction false} FirstEnd(parents: Parents, n: string, k: nat) returns (least: nat)
    requires Walk(parents, n, k) == None
    ensures Walk(parents, n, least) == None && forall j :: 0 <= j < least ==> Walk(parents, n, j).Some?
    decreases k
  {
    if j: nat :| j < k && Walk(parents, n, j) == None {
      least := FirstEnd(parents, n, j);
    } else {
      least := k;
    }
  }

  ghost predicate IsHeight(parents: Parents, n: string, k: nat) {
    Walk(parents, n, k) == None && forall j :: 0 <= j < k ==> Walk(parents, n, j).Some?
  }

  lemma ParentIsLower(parents: Parents, n: string, i: nat, j: nat)
    requires n in parents && parents[n].Some? && IsHeight(parents, n, i) && IsHeight(parents, parents[n].value, j)
    ensures j < i
  {
    var p := parents[n].value;
    assert Walk(parents, n, 1) == Some(p) by { assert Walk(parents, n, 0) == Some(n); }
    if i <= j {
      assert Walk(parents, n, 0).Some?;
      WalkOn(parents, n, 1, i - 1);
    }
  }

  /** When every walk ends, the length of the walk is a rank. */
  lemma EndingWalksGiveRank(parents: Parents)
    requires forall n :: n in parents ==> Ends(parents, n)
    ensures IsForest(parents)
  {
    forall n | n in parents ensures exists k :: IsHeight(parents, n, k) {
      var k :| Walk(parents, n, k) == None;
      var least := FirstEnd(parents, n, k);
      assert IsHeight(parents, n, least);
    }
    var rank := map n | n in parents :: Height(parents, n);
    forall n | n in parents && parents[n].Some? && parents[n].value in parents
      ensures rank[parents[n].value] < rank[n]
    {
      ParentIsLower(parents, n, rank[n], rank[parents[n].value]);
    }
    assert IsRank(parents, rank);
  }

  ghost function Height(parents: Parents, n: string): (k: nat)
    requires exists k :: IsHeight(parents, n, k)
    ensures IsHeight(parents, n, k)
  {
    var k :| IsHeight(parents, n, k);
    k
  }

  // ----- the check -----

  ghost predicate Visited(parents: Parents, n: string, steps: nat, m: string) {
    exists i :: 0 <= i < steps && Walk(parents, n, i) == Some(m)
  }

  /** Coming back to a visited node is being on a cycle. */
  lemma RevisitIsCycle(parents: Parents, n: string, steps: nat, m: string)
    requires Walk(parents, n, steps) == Some(m) && Visited(parents, n, steps, m)
    ensures OnCycle(parents, m)
  {
    var i :| 0 <= i < steps && Walk(parents, n, i) == Some(m);
    WalkOn(parents, n, i, steps - i);
  }

  lemma VisitNext(parents: Parents, n: string, steps: nat)
    ensures forall m :: Visited(parents, n, steps + 1, m) <==>
      Visited(parents, n, steps, m) || Walk(parents, n, steps) == Some(m)
  {
    hide Walk;
  }

  /** Walks the parents of one node; reports whether the walk came back to a visited node. */
  method WalkFrom(parents: Parents, nodeId: string) returns (repeats: bool)
    ensures !repeats ==> Ends(parents, nodeId)
    ensures repeats ==> exists k, m :: Walk(parents, nodeId, k) == Some(m) && OnCycle(parents, m)
  {
    hide Visited, OnCycle;
    var visited: set<string> := {};
    var current := Some(nodeId);
    ghost var steps: nat := 0;
    assert forall m :: !Visited(parents, nodeId, 0, m) by { NothingVisited(parents, nodeId); }
    while current.Some?
      invariant current == Walk(parents, nodeId, steps)
      invariant forall m :: m in visited <==> Visited(parents, nodeId, steps, m)
      invariant current.Some? ==> visited <= parents.Keys
      decreases parents.Keys - visited, current.Some?
    {
      var candidate := current.value;
      if candidate in visited {
        RevisitIsCycle(parents, nodeId, steps, candidate);
        return true;
      }
      VisitNext(parents, nodeId, steps);
      visited := visited + {candidate};
      current := if candidate in parents then parents[candidate] else None;
      steps := steps + 1;
    }
    return false;
  }

  lemma NothingVisited(parents: Parents, n: string)
    ensures forall m :: !Visited(parents, n, 0, m)
  {
  }

  /** Every parent exists and the parent relation is well-founded; errors name a real defect. */
  method ValidateParentGraph(parents: Parents, nodeIds: set<string>) returns (r: Result<(), MapError>)
    ensures r.Ok? <==> ParentsExist(parents, nodeIds) && IsForest(parents)
    ensures r.Err? && r.error.InvalidEndpoint? ==>
      r.error.at in parents && parents[r.error.at].Some? && parents[r.error.at].value !in nodeIds
    ensures r.Err? && r.error.ParentCycle? ==>
      exists k, m :: Walk(parents, r.error.at, k) == Some(m) && OnCycle(parents, m)
    ensures r.Err? ==> r.error.InvalidEndpoint? || r.error.ParentCycle?
  {
    var remaining := parents.Keys;
    while remaining != {}
      invariant remaining <= parents.Keys
      invariant forall n :: n in parents.Keys - remaining ==> Ends(parents, n)
      invariant forall n :: n in parents.Keys - remaining && parents[n].Some? ==> parents[n].value in nodeIds
      decreases remaining
    {
      var nodeId :| nodeId in remaining;
      var directParent := parents[nodeId];
      if directParent.Some? {
        if directParent.value !in nodeIds { return Err(InvalidEndpoint(nodeId)); }
        if directParent.value == nodeId {
          assert Walk(parents, nodeId, 0) == Some(nodeId) && Walk(parents, nodeId, 1) == Some(nodeId);
          assert OnCycle(parents, nodeId);
          if IsForest(parents) { ForestHasNoCycle(parents, nodeId); }
          return Err(ParentCycle(nodeId));
        }
      }
      var repeats := WalkFrom(parents, nodeId);
      if repeats {
        ghost var k, m :| Walk(parents, nodeId, k) == Some(m) && OnCycle(parents, m);
        if IsForest(parents) { ForestHasNoCycle(parents, m); }
        return Err(ParentCycle(nodeId));
      }
      remaining := remaining - {nodeId};
    }
    EndingWalksGiveRank(parents);
    return Ok(());
  }
}
