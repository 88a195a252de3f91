/** Roles of the processes around a target: the bounded descendant search over a process table. */
module ProcessRelations {
  import opened Wrappers

  const MAX_RELATED_PROCESSES: nat := 128

  datatype Role = Target | Parent | Child

  /** A process table: the parent id of each process, and the order in which the table lists them. */
  datatype Table = Table(parentOf: map<int, int>, order: seq<int>) {
    ghost predicate Valid() {
      forall pid :: pid in order <==> pid in parentOf
    }
  }

  /** The observed parent of the target, if it is a process of its own. */
  function RecordedParent(t: Table, target: int): Option<int>
    requires target in t.parentOf
  {
    var p := t.parentOf[target];
    if p in t.parentOf && p != target then Some(p) else None
  }

  /** A process that may be recorded as a child: neither the target nor its recorded parent. */
  predicate IsFree(t: Table, target: int, pid: int)
    requires target in t.parentOf
  {
    pid != target && Some(pid) != RecordedParent(t, target)
  }

  /** A downward chain from the target that avoids the recorded parent. */
  ghost predicate IsDescent(t: Table, target: int, path: seq<int>)
    requires target in t.parentOf
  {
    && path != [] && path[0] == target
    && forall i: nat :: i + 1 < |path| ==> IsLink(t, target, path[i], path[i + 1])
  }

  ghost predicate IsLink(t: Table, target: int, parent: int, pid: int)
    requires target in t.parentOf
  {
    pid in t.parentOf && t.parentOf[pid] == parent && IsFree(t, target, pid)
  }

  ghost predicate Descends(t: Table, target: int, pid: int)
    requires target in t.parentOf
  {
    exists path :: IsDescent(t, target, path) && |path| >= 2 && path[|path| - 1] == pid
  }

  /** A process whose children are to be found: the target or one of its recorded descendants. */
  ghost predicate IsInner(roles: map<int, Role>, pid: int) {
    pid in roles && roles[pid] != Parent
  }

  lemma ChildDescends(t: Table, target: int, parent: int, pid: int)
    requires target in t.parentOf && IsLink(t, target, parent, pid)
    requires parent == target || Descends(t, target, parent)
    ensures Descends(t, target, pid)
  {
    var path := [target];
    if parent != target {
      path :| IsDescent(t, target, path) && |path| >= 2 && path[|path| - 1] == parent;
    }
    var longer := path + [pid];
    forall i: nat | i + 1 < |longer| ensures IsLink(t, target, longer[i], longer[i + 1]) {
      if i + 1 < |path| { assert IsLink(t, target, path[i], path[i + 1]); }
    }
    assert IsDescent(t, target, longer);
  }

  /** The roles found so far are right: what they say of the target, its parent and its descendants. */
  ghost predicate RolesAreSound(t: Table, target: int, roles: map<int, Role>)
    requires target in t.parentOf
  {
    && roles.Keys <= t.parentOf.Keys && |roles| <= MAX_RELATED_PROCESSES
    && (forall p :: p in roles && roles[p] == Target <==> p == target)
    && (forall p :: p in roles && roles[p] == Parent <==> Some(p) == RecordedParent(t, target))
    && (forall p :: p in roles && roles[p] == Child ==> Descends(t, target, p))
  }

  /** Every process below an inner process that needs no more visiting is recorded. */
  ghost predicate IsClosedExcept(t: Table, roles: map<int, Role>, waiting: set<int>) {
    forall pid :: pid in t.parentOf && IsInner(roles, t.parentOf[pid]) && t.parentOf[pid] !in waiting ==> pid in roles
  }

  function Elements(queue: seq<int>): set<int> {
    set q | q in queue
  }

  lemma RecordChild(t: Table, target: int, roles: map<int, Role>, parent: int, pid: int)
    requires target in t.parentOf && RolesAreSound(t, target, roles) && |roles| < MAX_RELATED_PROCESSES
    requires IsInner(roles, parent) && pid in t.parentOf && t.parentOf[pid] == parent && pid !in roles
    ensures RolesAreSound(t, target, roles[pid := Child])
  {
    hide Descends;
    assert IsFree(t, target, pid);
    assert IsLink(t, target, parent, pid);
    ChildDescends(t, target, parent, pid);
    assert roles[pid := Child].Keys == roles.Keys + {pid};
  }

  /** Records the children of one process, in table order, until the limit is reached. */
  method VisitChildren(t: Table, target: int, parent: int, known: map<int, Role>, waiting: seq<int>)
    returns (roles: map<int, Role>, queue: seq<int>)
    requires t.Valid() && target in t.parentOf && RolesAreSound(t, target, known) && |known| < MAX_RELATED_PROCESSES
    requires IsInner(known, parent) && forall q :: q in waiting ==> IsInner(known, q)
    requires IsClosedExcept(t, known, Elements(waiting) + {parent})
    ensures RolesAreSound(t, target, roles) && forall q :: q in queue ==> IsInner(roles, q)
    ensures known.Keys <= roles.Keys <= t.parentOf.Keys && (roles.Keys == known.Keys ==> queue == waiting)
    ensures |roles| < MAX_RELATED_PROCESSES ==> IsClosedExcept(t, roles, Elements(queue))
  {
    assert known.Keys <= t.parentOf.Keys;
    hide RolesAreSound;
    roles, queue := known, waiting;
    for k := 0 to |t.order|
      invariant RolesAreSound(t, target, roles) && |roles| < MAX_RELATED_PROCESSES
      invariant known.Keys <= roles.Keys <= t.parentOf.Keys && (roles.Keys == known.Keys ==> queue == waiting)
      invariant IsInner(roles, parent) && forall q :: q in queue ==> IsInner(roles, q)
      invariant IsClosedExcept(t, roles, Elements(queue) + {parent})
      invariant forall j :: 0 <= j < k && t.order[j] in t.parentOf && t.parentOf[t.order[j]] == parent ==>
        t.order[j] in roles
    {
      var pid := t.order[k];
      if t.parentOf[pid] == parent && pid !in roles {
        RecordChild(t, target, roles, parent, pid);
        roles := roles[pid := Child];
        queue := queue + [pid];
        if |roles| >= MAX_RELATED_PROCESSES { return; }
      }
    }
    forall pid | pid in t.parentOf && t.parentOf[pid] == parent ensures pid in roles {
      var j :| 0 <= j < |t.order| && t.order[j] == pid;
    }
  }

  lemma FirstRoles(t: Table, target: int, roles: map<int, Role>)
    requires target in t.parentOf
    requires roles == match RecordedParent(t, target)
      case None => map[target := Target]
      case Some(parent) => map[target := Target][parent := Parent]
    ensures RolesAreSound(t, target, roles) && IsInner(roles, target) && |roles| < MAX_RELATED_PROCESSES
    ensures IsClosedExcept(t, roles, {target})
  {
    hide Descends;
    assert roles.Keys <= {target, t.parentOf[target]};
  }

  method RelationRoles(t: Table, target: int) returns (roles: map<int, Role>)
    requires t.Valid()
    ensures target !in t.parentOf ==> roles == map[]
    ensures target in t.parentOf ==>
      && RolesAreSound(t, target, roles)
      && (|roles| < MAX_RELATED_PROCESSES ==> forall p :: p in roles && roles[p] == Child <==> Descends(t, target, p))
  {
    hide RolesAreSound, IsClosedExcept, Descends;
    if target !in t.parentOf { return map[]; }
    roles := map[target := Target];
    var parentId := t.parentOf[target];
    if parentId in t.parentOf && parentId != target {
      roles := roles[parentId := Parent];
    }
    var queue := [target];
    FirstRoles(t, target, roles);
    assert Elements(queue) == {target};
    while queue != [] && |roles| < MAX_RELATED_PROCESSES
      invariant RolesAreSound(t, target, roles) && roles.Keys <= t.parentOf.Keys
      invariant forall q :: q in queue ==> IsInner(roles, q)
      invariant |roles| < MAX_RELATED_PROCESSES ==> IsClosedExcept(t, roles, Elements(queue))
      decreases t.parentOf.Keys - roles.Keys, |queue|
    {
      var parent := queue[0];
      assert queue == [parent] + queue[1..];
      assert Elements(queue) == Elements(queue[1..]) + {parent};
      roles, queue := VisitChildren(t, target, parent, roles, queue[1..]);
    }
    if |roles| < MAX_RELATED_PROCESSES {
      assert Elements(queue) == {};
      ClosedRolesAreComplete(t, target, roles);
    }
  }

  lemma ClosedRolesAreComplete(t: Table, target: int, roles: map<int, Role>)
    requires target in t.parentOf && RolesAreSound(t, target, roles) && IsClosedExcept(t, roles, {})
    ensures forall p :: p in roles && roles[p] == Child <==> Descends(t, target, p)
  {
    hide Descends;
    forall p | Descends(t, target, p) ensures p in roles && roles[p] == Child {
      ClosedHasDescendants(t, target, roles, p);
    }
  }

  /** When nothing waits any more, every descendant is recorded. */
  lemma ClosedHasDescendants(t: Table, target: int, roles: map<int, Role>, pid: int)
    requires target in t.parentOf && RolesAreSound(t, target, roles)
    requires IsClosedExcept(t, roles, {}) && Descends(t, target, pid)
    ensures pid in roles && roles[pid] == Child
  {
    var path :| IsDescent(t, target, path) && |path| >= 2 && path[|path| - 1] == pid;
    DescentIsRecorded(t, target, roles, path, |path| - 1);
  }

  lemma {:induction false} DescentIsRecorded(t: Table, target: int, roles: map<int, Role>, path: seq<int>, k: nat)
    requires target in t.parentOf && RolesAreSound(t, target, roles) && IsClosedExcept(t, roles, {})
    requires IsDescent(t, target, path) && 1 <= k < |path|
    ensures path[k] in roles && roles[path[k]] == Child
    decreases k
  {
    hide Descends;
    assert IsLink(t, target, path[k - 1], path[(k - 1) + 1]);
    if k > 1 { DescentIsRecorded(t, target, roles, path, k - 1); }
    assert IsInner(roles, path[k - 1]);
  }
}
