/** The groups table: rows keyed by id, each with an optional parent, deletions setting the parent to null. */
module GroupsRepo {
  import opened Wrappers
  import opened Chains

  datatype Group = Group(id: string, name: string, color: Option<string>, parentId: Option<string>, sortOrder: int)

  type Table = map<string, Group>

  /** Child id to parent id. */
  type Parents = Links<string>

  /** An input field is `None` when the caller left it undefined and `Some(None)` when it sent null. */
  datatype GroupInput = GroupInput(
    name: string, color: Option<Option<string>>, parentId: Option<Option<string>>, sortOrder: Option<int>)

  datatype GroupError = ParentNotFound | GroupNotFound | NestedInItself | ForeignKeyFailed

  datatype Outcome = Ok(group: Group) | Err(error: GroupError)

  /** A parent id that the code's truth tests let through: neither null nor empty. */
  predicate IsLink(parentId: Option<string>) {
    parentId.Some? && parentId.value != ""
  }

  function ParentsOf(rows: Table): Parents {
    map id | id in rows && IsLink(rows[id].parentId) :: rows[id].parentId.value
  }

  /** What the schema enforces: the primary key, and the foreign key on `parent_id`. */
  ghost predicate TableOk(rows: Table) {
    forall id <- rows :: id != "" && rows[id].id == id && (rows[id].parentId.Some? ==> rows[id].parentId.value in rows)
  }

  ghost predicate Forest(rows: Table) {
    TableOk(rows) && Acyclic(ParentsOf(rows))
  }

  function GetOr<T>(o: Option<T>, default: T): T {
    if o.Some? then o.value else default
  }

  // ----- What each operation does to the table -----

  function AfterCreate(rows: Table, id: string, input: GroupInput): (Table, Outcome) {
    var parentId := GetOr(input.parentId, None);
    if parentId.Some? && parentId.value !in rows then (rows, Err(ParentNotFound))
    else
      var g := Group(id, input.name, GetOr(input.color, None), parentId, GetOr(input.sortOrder, 0));
      (rows[id := g], Ok(g))
  }

  ghost function AfterUpdate(rows: Table, id: string, input: GroupInput): (Table, Outcome) {
    if id !in rows then (rows, Err(GroupNotFound))
    else
      var parentId := GetOr(input.parentId, rows[id].parentId);
      if IsLink(parentId) && Reaches(ParentsOf(rows), parentId.value, id) then (rows, Err(NestedInItself))
      else if parentId.Some? && parentId.value !in rows then (rows, Err(ForeignKeyFailed))
      else
        var g := Group(id, input.name, GetOr(input.color, rows[id].color), parentId, GetOr(input.sortOrder, rows[id].sortOrder));
        (rows[id := g], Ok(g))
  }

  function AfterDelete(rows: Table, id: string): Table {
    map k | k in rows && k != id :: if rows[k].parentId == Some(id) then rows[k].(parentId := None) else rows[k]
  }

  /** The repository: one table, changed by each call. */
  class Repo {
    var rows: Table

    constructor ()
      ensures rows == map[]
    {
      rows := map[];
    }

    /** The upward walk. It needs no assumption about the table: a cycle already there stops it too. */
    method WouldCycle(groupId: string, parentId: Option<string>) returns (r: bool)
      ensures r <==> IsLink(parentId) && Reaches(ParentsOf(rows), parentId.value, groupId)
    {
      if !IsLink(parentId) {
        return false;
      }
      ghost var m, p := ParentsOf(rows), parentId.value;
      if parentId.value == groupId {
        assert Up(m, p, 0) == Some(p);
        return true;
      }
      var parentOf := map id | id in rows :: rows[id].parentId;
      var cursor := parentId;
      var seen: set<string> := {};
      ghost var k: nat := 0;
      while IsLink(cursor)
        invariant Up(m, p, k) == if IsLink(cursor) then cursor else None
        invariant forall i: nat | i < k :: Up(m, p, i).Some? && Up(m, p, i).value in seen && Up(m, p, i).value != groupId
        invariant forall c <- seen :: exists i: nat :: i < k && Up(m, p, i) == Some(c)
        invariant seen <= {p} + m.Values && (IsLink(cursor) ==> cursor.value in {p} + m.Values)
        decreases {p} + m.Values - seen
      {
        if cursor.value == groupId {
          return true;
        }
        if cursor.value in seen {
          ghost var j: nat :| j < k && Up(m, p, j) == cursor;
          forall n: nat
            ensures Up(m, p, n) != Some(groupId)
          {
            RepeatIsPeriodic(m, p, j, k, n);
          }
          return false;
        }
        seen := seen + {cursor.value};
        UpStep(m, p, k);
        cursor := if cursor.value in parentOf then parentOf[cursor.value] else None;
        k := k + 1;
      }
      forall n: nat
        ensures Up(m, p, n) != Some(groupId)
      {
        if n >= k {
          UpCompose(m, p, k, n - k);
        }
      }
      return false;
    }

    /** `id` is the fresh id the caller draws. */
    method CreateGroup(id: string, input: GroupInput) returns (r: Outcome)
      requires id !in rows
      modifies this
      ensures (rows, r) == AfterCreate(old(rows), id, input)
    {
      var parentId := GetOr(input.parentId, None);
      if parentId.Some? && parentId.value !in rows {
        return Err(ParentNotFound);
      }
      var row := Group(id, input.name, GetOr(input.color, None), parentId, GetOr(input.sortOrder, 0));
      rows := rows[id := row];
      return Ok(row);
    }

    method UpdateGroup(id: string, input: GroupInput) returns (r: Outcome)
      modifies this
      ensures (rows, r) == AfterUpdate(old(rows), id, input)
    {
      if id !in rows {
        return Err(GroupNotFound);
      }
      var existing := rows[id];
      var parentId := GetOr(input.parentId, existing.parentId);
      var cyclic := WouldCycle(id, parentId);
      if cyclic {
        return Err(NestedInItself);
      }
      if parentId.Some? && parentId.value !in rows {
        return Err(ForeignKeyFailed);
      }
      var row := Group(id, input.name, GetOr(input.color, existing.color), parentId, GetOr(input.sortOrder, existing.sortOrder));
      rows := rows[id := row];
      return Ok(row);
    }

    method DeleteGroup(id: string)
      modifies this
      ensures rows == AfterDelete(old(rows), id)
    {
      var kept := rows - {id};
      rows := map k | k in kept :: if kept[k].parentId == Some(id) then kept[k].(parentId := None) else kept[k];
    }
  }

  // ----- Every sequence of operations -----

  datatype Op = Create(id: string, input: GroupInput) | Update(id: string, input: GroupInput) | Delete(id: string)

  ghost function Apply(rows: Table, op: Op): Table {
    match op
    case Create(id, input) => if id in rows || id == "" then rows else AfterCreate(rows, id, input).0
    case Update(id, input) => AfterUpdate(rows, id, input).0
    case Delete(id) => AfterDelete(rows, id)
  }

  ghost function ApplyAll(rows: Table, ops: seq<Op>): Table
    decreases |ops|
  {
    if ops == [] then rows else ApplyAll(Apply(rows, ops[0]), ops[1..])
  }

  lemma ParentsAfterRelink(rows: Table, id: string, g: Group)
    requires TableOk(rows)
    ensures ParentsOf(rows[id := g]) ==
      if IsLink(g.parentId) then ParentsOf(rows)[id := g.parentId.value] else ParentsOf(rows) - {id}
  {
  }

  lemma StoreKeepsForest(rows: Table, g: Group)
    requires Forest(rows) && g.id != "" && (g.parentId.Some? ==> g.parentId.value in rows)
    requires g.parentId.Some? ==> !Reaches(ParentsOf(rows), g.parentId.value, g.id)
    ensures Forest(rows[g.id := g])
  {
    ParentsAfterRelink(rows, g.id, g);
    if g.parentId.Some? {
      RelinkAcyclicIff(ParentsOf(rows), g.id, g.parentId.value);
    } else {
      FewerLinksAcyclic(ParentsOf(rows), ParentsOf(rows[g.id := g]));
    }
  }

  /** An id with no row is reached only from itself: links lead to rows. */
  lemma NewIdUnreached(rows: Table, p: string, id: string)
    requires TableOk(rows) && id !in rows && p in rows
    ensures !Reaches(ParentsOf(rows), p, id)
  {
    var m := ParentsOf(rows);
    forall k: nat
      ensures Up(m, p, k) != Some(id)
    {
      StaysInTable(rows, p, k);
    }
  }

  lemma {:induction false} StaysInTable(rows: Table, x: string, k: nat)
    requires TableOk(rows) && x in rows
    ensures Up(ParentsOf(rows), x, k).Some? ==> Up(ParentsOf(rows), x, k).value in rows
    decreases k
  {
    if k > 0 && x in ParentsOf(rows) {
      StaysInTable(rows, ParentsOf(rows)[x], k - 1);
    }
  }

  lemma OpKeepsForest(rows: Table, op: Op)
    requires Forest(rows)
    ensures Forest(Apply(rows, op))
  {
    match op {
      case Create(id, input) =>
        if id !in rows && id != "" && AfterCreate(rows, id, input).1.Ok? {
          var g := AfterCreate(rows, id, input).1.group;
          if g.parentId.Some? {
            NewIdUnreached(rows, g.parentId.value, id);
          }
          StoreKeepsForest(rows, g);
        }
      case Update(id, input) =>
        if AfterUpdate(rows, id, input).1.Ok? {
          StoreKeepsForest(rows, AfterUpdate(rows, id, input).1.group);
        }
      case Delete(id) =>
        FewerLinksAcyclic(ParentsOf(rows), ParentsOf(AfterDelete(rows, id)));
    }
  }

  lemma {:induction false} HistoryKeepsForest(rows: Table, ops: seq<Op>)
    requires Forest(rows)
    ensures Forest(ApplyAll(rows, ops))
    decreases |ops|
  {
    if ops != [] {
      OpKeepsForest(rows, ops[0]);
      HistoryKeepsForest(Apply(rows, ops[0]), ops[1..]);
    }
  }

  /** Every sequence of creates, updates and deletes leaves a forest whose links all lead to rows. */
  lemma EveryTableIsForest(ops: seq<Op>)
    ensures Forest(ApplyAll(map[], ops))
  {
    HistoryKeepsForest(map[], ops);
  }

  /** The guard refuses nothing it need not: an update fails as nested exactly when storing it would close a cycle. */
  lemma UpdateRefusedIffCyclic(rows: Table, id: string, input: GroupInput, parent: string)
    requires Forest(rows) && id in rows && parent in rows && input.parentId == Some(Some(parent))
    ensures AfterUpdate(rows, id, input).1 == Err(NestedInItself)
      <==> !Acyclic(ParentsOf(rows[id := rows[id].(parentId := Some(parent))]))
  {
    ParentsAfterRelink(rows, id, rows[id].(parentId := Some(parent)));
    RelinkAcyclicIff(ParentsOf(rows), id, parent);
  }
}
