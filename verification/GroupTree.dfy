/**
 * The sidebar's view of the groups: the downward search for a group's descendants, the tree builder and
 * its flattening, and the ancestor walk that host inheritance uses.
 */
module GroupTree {
  import opened Wrappers
  import opened Sorting
  import opened Chains
  import opened GroupsRepo

  datatype GroupNode = GroupNode(group: Group, depth: nat, children: seq<GroupNode>)

  datatype Entry = Entry(group: Group, depth: nat)

  /** A listing has one group per id; ids are generated and never empty. Parents may dangle or form cycles. */
  ghost predicate Listing(groups: seq<Group>) {
    && (forall g <- groups :: g.id != "")
    && (forall i, j | 0 <= i < j < |groups| :: groups[i].id != groups[j].id)
  }

  function RowsOf(groups: seq<Group>): (rows: Table)
    requires Listing(groups)
    ensures forall g <- groups :: g.id in rows && rows[g.id] == g
    ensures forall id <- rows :: rows[id] in groups && rows[id].id == id
    ensures "" !in rows
  {
    map g | g in groups :: g.id := g
  }

  function EffectiveParent(g: Group, rows: Table): Option<string> {
    if IsLink(g.parentId) && g.parentId.value in rows then g.parentId else None
  }

  /** The links between rows; a dangling one counts as none. */
  function LinksOf(rows: Table): Parents {
    map id | id in rows && EffectiveParent(rows[id], rows).Some? :: rows[id].parentId.value
  }

  // ----- Descendants -----

  /** The groups whose parent field is `key`, in listing order. */
  function Children(groups: seq<Group>, key: string): seq<Group> {
    if groups == [] then []
    else
      var n := |groups| - 1;
      Children(groups[..n], key) + (if groups[n].parentId == Some(key) then [groups[n]] else [])
  }

  lemma {:induction false} InChildren(groups: seq<Group>, key: string, g: Group)
    ensures g in Children(groups, key) <==> g in groups && g.parentId == Some(key)
  {
    if groups != [] {
      var n := |groups| - 1;
      InChildren(groups[..n], key, g);
      assert groups == groups[..n] + [groups[n]];
    }
  }

  function ChildrenIn(childrenOf: map<string, seq<Group>>, key: string): seq<Group> {
    if key in childrenOf then childrenOf[key] else []
  }

  method ChildrenMap(groups: seq<Group>) returns (childrenOf: map<string, seq<Group>>)
    ensures forall key | key != "" :: ChildrenIn(childrenOf, key) == Children(groups, key)
  {
    childrenOf := map[];
    for i := 0 to |groups|
      invariant forall key | key != "" :: ChildrenIn(childrenOf, key) == Children(groups[..i], key)
    {
      var g := groups[i];
      assert groups[..i + 1][..i] == groups[..i];
      if IsLink(g.parentId) {
        childrenOf := childrenOf[g.parentId.value := ChildrenIn(childrenOf, g.parentId.value) + [g]];
      }
    }
    assert groups[..|groups|] == groups;
  }

  /** `childrenOf` inverts the links `m`, whose parents are never empty. */
  ghost predicate Inverts(childrenOf: map<string, seq<Group>>, m: Parents) {
    && "" !in m
    && (forall key, c | key != "" && c in ChildrenIn(childrenOf, key) :: c.id in m && m[c.id] == key)
    && (forall x <- m :: m[x] != "" && exists c <- ChildrenIn(childrenOf, m[x]) :: c.id == x)
  }

  /** The children of `x` have all been collected. */
  ghost predicate Expanded(m: Parents, result: set<string>, x: string) {
    forall y <- m | m[y] == x :: y in result
  }

  lemma {:induction false} ClosedSetHasDescendants(m: Parents, result: set<string>, id: string, x: string, k: nat)
    requires id in result && (forall y <- result :: Expanded(m, result, y)) && Up(m, x, k) == Some(id)
    ensures x in result
    decreases k
  {
    if k > 0 {
      ClosedSetHasDescendants(m, result, id, m[x], k - 1);
      assert Expanded(m, result, m[x]);
    }
  }

  /** Everything found reaches `id`, and is still to be expanded unless its children are found too. */
  ghost predicate Searching(m: Parents, id: string, result: set<string>, pending: set<string>) {
    && id in result && result <= {id} + m.Keys && pending <= result
    && (forall x <- result :: Reaches(m, x, id))
    && (forall x <- result :: x in pending || Expanded(m, result, x))
  }

  /** The inner loop: files and stacks the children of `current` not met before. */
  method PushChildren(children: seq<Group>, found: set<string>, rest: seq<string>, current: string, ghost m: Parents, ghost id: string)
    returns (result: set<string>, stack: seq<string>)
    requires Searching(m, id, found, Members(rest) + {current})
    requires forall c <- children :: c.id in m && m[c.id] == current
    ensures Searching(m, id, result, Members(stack) + {current})
    ensures found <= result && (found == result ==> stack == rest)
    ensures forall c <- children :: c.id in result
  {
    result, stack := found, rest;
    for i := 0 to |children|
      invariant found <= result && (found == result ==> stack == rest)
      invariant Searching(m, id, result, Members(stack) + {current})
      invariant forall c <- children[..i] :: c.id in result
    {
      var child := children[i];
      assert child in children;
      if child.id !in result {
        FoundOne(m, id, result, Members(stack) + {current}, child.id);
        assert Members(stack + [child.id]) + {current} == Members(stack) + {current} + {child.id};
        result, stack := result + {child.id}, stack + [child.id];
      }
      assert children[..i + 1] == children[..i] + [child];
    }
    assert children[..|children|] == children;
  }

  /** One turn of the outer loop: `current`, just popped, is expanded. */
  method Expand(childrenOf: map<string, seq<Group>>, current: string, found: set<string>, rest: seq<string>, ghost m: Parents, ghost id: string)
    returns (result: set<string>, stack: seq<string>)
    requires current != "" && Inverts(childrenOf, m) && Searching(m, id, found, Members(rest) + {current})
    ensures Searching(m, id, result, Members(stack))
    ensures found <= result <= {id} + m.Keys && (found == result ==> stack == rest)
  {
    result, stack := PushChildren(ChildrenIn(childrenOf, current), found, rest, current, m, id);
    OneExpanded(childrenOf, m, id, result, Members(stack), current);
  }

  method Search(childrenOf: map<string, seq<Group>>, id: string, ghost m: Parents) returns (result: set<string>)
    requires Inverts(childrenOf, m)
    ensures forall x :: x in result <==> Reaches(m, x, id)
  {
    ghost var all := {id} + m.Keys;
    result := {id};
    var stack := [id];
    SearchStarts(m, id);
    while stack != []
      invariant result <= all && Searching(m, id, result, Members(stack))
      decreases all - result, |stack|
    {
      var current, rest := stack[|stack| - 1], stack[..|stack| - 1];
      MembersOfStack(stack);
      if current == "" {
        OnlyItselfReachesEmpty(childrenOf, m, id, result, Members(stack));
        return;
      }
      ghost var before := result;
      result, stack := Expand(childrenOf, current, result, rest, m, id);
      FewerLeft(all, before, result);
    }
    SearchDone(m, id, result);
  }

  lemma MembersOfStack(stack: seq<string>)
    requires stack != []
    ensures var n := |stack| - 1; stack[n] in Members(stack) && Members(stack) == Members(stack[..n]) + {stack[n]}
  {
    assert stack == stack[..|stack| - 1] + [stack[|stack| - 1]];
  }

  lemma FewerLeft(all: set<string>, before: set<string>, after: set<string>)
    requires before <= after <= all
    ensures before == after || all - after < all - before
  {
    if before != after {
      var x :| x in after && x !in before;
      assert x in all - before && x !in all - after;
    }
  }

  ghost function Members(s: seq<string>): set<string> {
    set x | x in s
  }

  lemma SearchStarts(m: Parents, id: string)
    ensures Searching(m, id, {id}, Members([id]))
  {
    assert Up(m, id, 0) == Some(id);
  }

  lemma FoundOne(m: Parents, id: string, result: set<string>, pending: set<string>, x: string)
    requires Searching(m, id, result, pending) && x in m && m[x] in result
    ensures Searching(m, id, result + {x}, pending + {x})
  {
    ReachesByStep(m, x, id);
    forall y <- result | y !in pending
      ensures Expanded(m, result + {x}, y)
    {
      assert Expanded(m, result, y);
    }
  }

  lemma OneExpanded(
    childrenOf: map<string, seq<Group>>, m: Parents, id: string, result: set<string>, pending: set<string>, current: string)
    requires current != "" && Inverts(childrenOf, m) && Searching(m, id, result, pending + {current})
    requires forall c <- ChildrenIn(childrenOf, current) :: c.id in result
    ensures Searching(m, id, result, pending)
  {
  }

  lemma SearchDone(m: Parents, id: string, result: set<string>)
    requires Searching(m, id, result, {})
    ensures forall x :: x in result <==> Reaches(m, x, id)
  {
    forall x | Reaches(m, x, id)
      ensures x in result
    {
      var k: nat :| Up(m, x, k) == Some(id);
      ClosedSetHasDescendants(m, result, id, x, k);
    }
  }

  /** The empty id, on which the search stops, is no group's id: it is only there if it was asked for. */
  lemma OnlyItselfReachesEmpty(
    childrenOf: map<string, seq<Group>>, m: Parents, id: string, result: set<string>, pending: set<string>)
    requires Inverts(childrenOf, m) && Searching(m, id, result, pending) && "" in pending
    ensures forall x :: x in result <==> Reaches(m, x, id)
  {
    assert Up(m, "", 0) == Some("");
    forall x, k: nat | Up(m, x, k) == Some("")
      ensures x == ""
    {
      if k > 0 {
        UpStep(m, x, k - 1);
      }
    }
  }

  /** The downward search finds exactly the ids whose upward chain reaches `id`. */
  method DescendantIds(groups: seq<Group>, id: string) returns (result: set<string>)
    requires Listing(groups)
    ensures forall x :: x in result <==> Reaches(ParentsOf(RowsOf(groups)), x, id)
  {
    var childrenOf := ChildrenMap(groups);
    ChildrenInvertParents(groups, childrenOf);
    result := Search(childrenOf, id, ParentsOf(RowsOf(groups)));
  }

  lemma ChildrenInvertParents(groups: seq<Group>, childrenOf: map<string, seq<Group>>)
    requires Listing(groups) && forall key | key != "" :: ChildrenIn(childrenOf, key) == Children(groups, key)
    ensures Inverts(childrenOf, ParentsOf(RowsOf(groups)))
  {
    var m := ParentsOf(RowsOf(groups));
    forall key, c | key != "" && c in ChildrenIn(childrenOf, key)
      ensures c.id in m && m[c.id] == key
    {
      InChildren(groups, key, c);
    }
    forall x <- m
      ensures m[x] != "" && exists c <- ChildrenIn(childrenOf, m[x]) :: c.id == x
    {
      InChildren(groups, m[x], RowsOf(groups)[x]);
    }
  }

  /** The repository's guard and the sidebar's guard forbid exactly the same parents, on any table. */
  method GuardsAgree(repo: Repo, groups: seq<Group>, id: string, parent: string) returns (refused: bool, hidden: bool)
    requires Listing(groups) && repo.rows == RowsOf(groups) && parent != ""
    ensures refused == hidden
  {
    refused := repo.WouldCycle(id, Some(parent));
    var below := DescendantIds(groups, id);
    hidden := parent in below;
  }

  // ----- The tree -----

  /** Sort order first, then name; `nameLeq` is the locale's collation. */
  function SiblingLeq(nameLeq: (string, string) -> bool): (Group, Group) -> bool {
    (a: Group, b: Group) => a.sortOrder < b.sortOrder || (a.sortOrder == b.sortOrder && nameLeq(a.name, b.name))
  }

  /** The groups whose effective parent is `key`, in listing order. */
  function Siblings(groups: seq<Group>, rows: Table, key: Option<string>): seq<Group> {
    if groups == [] then []
    else (if EffectiveParent(groups[0], rows) == key then [groups[0]] else []) + Siblings(groups[1..], rows, key)
  }

  lemma {:induction false} InSiblings(groups: seq<Group>, rows: Table, key: Option<string>, g: Group)
    ensures g in Siblings(groups, rows, key) <==> g in groups && EffectiveParent(g, rows) == key
  {
    if groups != [] {
      InSiblings(groups[1..], rows, key, g);
      assert groups == [groups[0]] + groups[1..];
    }
  }

  lemma {:induction false} SiblingsDistinct(groups: seq<Group>, rows: Table, key: Option<string>)
    requires Distinct(groups)
    ensures Distinct(Siblings(groups, rows, key))
  {
    if groups != [] {
      SiblingsDistinct(groups[1..], rows, key);
      InSiblings(groups[1..], rows, key, groups[0]);
    }
  }

  /** One level of the tree, in display order. */
  function Level(groups: seq<Group>, nameLeq: (string, string) -> bool, key: Option<string>): (level: seq<Group>)
    requires Listing(groups)
    ensures forall g :: g in level <==> g in groups && EffectiveParent(g, RowsOf(groups)) == key
    ensures Distinct(level)
    ensures TotalPreorder(SiblingLeq(nameLeq)) ==> Sorted(SiblingLeq(nameLeq), level)
  {
    LevelFacts(groups, nameLeq, key);
    SortBy(SiblingLeq(nameLeq), Siblings(groups, RowsOf(groups), key))
  }

  lemma LevelFacts(groups: seq<Group>, nameLeq: (string, string) -> bool, key: Option<string>)
    requires Listing(groups)
    ensures var leq, s := SiblingLeq(nameLeq), Siblings(groups, RowsOf(groups), key);
      && (forall g :: g in SortBy(leq, s) <==> g in groups && EffectiveParent(g, RowsOf(groups)) == key)
      && Distinct(SortBy(leq, s))
      && (TotalPreorder(leq) ==> Sorted(leq, SortBy(leq, s)))
  {
    var leq, s := SiblingLeq(nameLeq), Siblings(groups, RowsOf(groups), key);
    SortByIsPermutation(leq, s);
    SameElements(SortBy(leq, s), s);
    forall g
      ensures g in s <==> g in groups && EffectiveParent(g, RowsOf(groups)) == key
    {
      InSiblings(groups, RowsOf(groups), key, g);
    }
    SiblingsDistinct(groups, RowsOf(groups), key);
    PermutationDistinct(SortBy(leq, s), s);
    if TotalPreorder(leq) {
      SortByIsSorted(leq, s);
    }
  }

  /** Every level below a group, keyed by that group's id. */
  function Levels(groups: seq<Group>, nameLeq: (string, string) -> bool): map<string, seq<Group>>
    requires Listing(groups)
  {
    var rows := RowsOf(groups);
    map id | id in rows :: Level(groups, nameLeq, Some(id))
  }

  /** `levels` lists, once each, exactly the rows linked to each parent. */
  ghost predicate LevelsOk(rows: Table, m: Parents, levels: map<string, seq<Group>>) {
    && m.Keys <= rows.Keys
    && (forall key <- levels, c <- levels[key] :: IsRow(rows, c) && c.id in m && m[c.id] == key)
    && (forall id <- m :: rows[id].id == id && m[id] in levels && rows[id] in levels[m[id]])
    && (forall key <- levels :: Distinct(levels[key]))
  }

  ghost predicate IsRow(rows: Table, g: Group) {
    g.id in rows && rows[g.id] == g
  }

  lemma LevelsAreOk(groups: seq<Group>, nameLeq: (string, string) -> bool)
    requires Listing(groups)
    ensures LevelsOk(RowsOf(groups), LinksOf(RowsOf(groups)), Levels(groups, nameLeq))
  {
    var rows, levels := RowsOf(groups), Levels(groups, nameLeq);
    forall key <- levels
      ensures Distinct(levels[key]) && forall c <- levels[key] :: IsRow(rows, c) && c.id in LinksOf(rows) && LinksOf(rows)[c.id] == key
    {
      var level := Level(groups, nameLeq, Some(key));
    }
    forall id <- LinksOf(rows)
      ensures rows[id].id == id && rows[id] in levels[LinksOf(rows)[id]]
    {
      var level := Level(groups, nameLeq, Some(LinksOf(rows)[id]));
    }
  }

  /** All of `gs` are rows, at `depth`, none twice. */
  ghost predicate AtDepth(rows: Table, m: Parents, gs: seq<Group>, depth: nat) {
    Distinct(gs) && forall g <- gs :: IsRow(rows, g) && RootedAt(m, g.id, depth)
  }

  function LevelAt(levels: map<string, seq<Group>>, key: string): seq<Group> {
    if key in levels then levels[key] else []
  }

  lemma ChildrenAtDepth(rows: Table, m: Parents, levels: map<string, seq<Group>>, g: Group, depth: nat)
    requires LevelsOk(rows, m, levels) && RootedAt(m, g.id, depth)
    ensures AtDepth(rows, m, LevelAt(levels, g.id), depth + 1)
    ensures depth <= |m|
  {
    RootedBound(m, g.id, depth);
  }

  /** The recursive builder; it ends because every group on its way down is rooted, even beside cycles. */
  function Build(ghost rows: Table, ghost m: Parents, levels: map<string, seq<Group>>, gs: seq<Group>, depth: nat): seq<GroupNode>
    requires LevelsOk(rows, m, levels) && AtDepth(rows, m, gs, depth)
    decreases |m| + 1 - depth, |gs|
  {
    if gs == [] then []
    else
      ChildrenAtDepth(rows, m, levels, gs[0], depth);
      var children := Build(rows, m, levels, LevelAt(levels, gs[0].id), depth + 1);
      [GroupNode(gs[0], depth, children)] + Build(rows, m, levels, gs[1..], depth)
  }

  function Walked(nodes: seq<GroupNode>): seq<Entry> {
    if nodes == [] then []
    else [Entry(nodes[0].group, nodes[0].depth)] + Walked(nodes[0].children) + Walked(nodes[1..])
  }

  method Walk(nodes: seq<GroupNode>, out: seq<Entry>) returns (out': seq<Entry>)
    ensures out' == out + Walked(nodes)
    decreases nodes
  {
    out' := out;
    for i := 0 to |nodes|
      invariant out' + Walked(nodes[i..]) == out + Walked(nodes)
    {
      out' := out' + [Entry(nodes[i].group, nodes[i].depth)];
      out' := Walk(nodes[i].children, out');
      assert nodes[i..][1..] == nodes[i + 1..];
    }
  }

  function BuildGroupTree(groups: seq<Group>, nameLeq: (string, string) -> bool): seq<GroupNode>
    requires Listing(groups)
  {
    LevelsAreOk(groups, nameLeq);
    RootsAtDepth(groups, nameLeq);
    Build(RowsOf(groups), LinksOf(RowsOf(groups)), Levels(groups, nameLeq), Level(groups, nameLeq, None), 0)
  }

  lemma RootsAtDepth(groups: seq<Group>, nameLeq: (string, string) -> bool)
    requires Listing(groups)
    ensures AtDepth(RowsOf(groups), LinksOf(RowsOf(groups)), Level(groups, nameLeq, None), 0)
  {
    var rows := RowsOf(groups);
    forall g <- Level(groups, nameLeq, None)
      ensures IsRow(rows, g) && RootedAt(LinksOf(rows), g.id, 0)
    {
      assert EffectiveParent(rows[g.id], rows) == None;
    }
  }

  /** `nodes` are the groups `gs`, in that order and at that depth, each over the level of its own children. */
  ghost predicate IsTree(levels: map<string, seq<Group>>, nodes: seq<GroupNode>, gs: seq<Group>, depth: nat)
    decreases nodes
  {
    if nodes == [] || gs == [] then nodes == [] && gs == []
    else
      && nodes[0].group == gs[0] && nodes[0].depth == depth
      && IsTree(levels, nodes[0].children, LevelAt(levels, gs[0].id), depth + 1)
      && IsTree(levels, nodes[1..], gs[1..], depth)
  }

  lemma {:induction false} BuildIsTree(rows: Table, m: Parents, levels: map<string, seq<Group>>, gs: seq<Group>, depth: nat)
    requires LevelsOk(rows, m, levels) && AtDepth(rows, m, gs, depth)
    ensures IsTree(levels, Build(rows, m, levels, gs, depth), gs, depth)
    decreases |m| + 1 - depth, |gs|
  {
    if gs != [] {
      ChildrenAtDepth(rows, m, levels, gs[0], depth);
      BuildIsTree(rows, m, levels, LevelAt(levels, gs[0].id), depth + 1);
      BuildIsTree(rows, m, levels, gs[1..], depth);
      var children := Build(rows, m, levels, LevelAt(levels, gs[0].id), depth + 1);
      var rest := Build(rows, m, levels, gs[1..], depth);
      assert ([GroupNode(gs[0], depth, children)] + rest)[1..] == rest;
    }
  }

  /** The built tree: the sorted top level, and under every node the sorted level of its children, one deeper. */
  lemma TreeNestsLevels(groups: seq<Group>, nameLeq: (string, string) -> bool)
    requires Listing(groups)
    ensures IsTree(Levels(groups, nameLeq), BuildGroupTree(groups, nameLeq), Level(groups, nameLeq, None), 0)
    ensures forall id <- RowsOf(groups) :: LevelAt(Levels(groups, nameLeq), id) == Level(groups, nameLeq, Some(id))
  {
    LevelsAreOk(groups, nameLeq);
    RootsAtDepth(groups, nameLeq);
    var rows := RowsOf(groups);
    BuildIsTree(rows, LinksOf(rows), Levels(groups, nameLeq), Level(groups, nameLeq, None), 0);
  }

  function FlattenedTree(groups: seq<Group>, nameLeq: (string, string) -> bool): seq<Entry>
    requires Listing(groups)
  {
    Walked(BuildGroupTree(groups, nameLeq))
  }

  method FlattenGroupTree(groups: seq<Group>, nameLeq: (string, string) -> bool) returns (out: seq<Entry>)
    requires Listing(groups)
    ensures out == FlattenedTree(groups, nameLeq)
  {
    out := Walk(BuildGroupTree(groups, nameLeq), []);
  }

  /** The flattening of one level and everything below it. */
  ghost function Flat(rows: Table, m: Parents, levels: map<string, seq<Group>>, gs: seq<Group>, depth: nat): seq<Entry>
    requires LevelsOk(rows, m, levels) && AtDepth(rows, m, gs, depth)
  {
    Walked(Build(rows, m, levels, gs, depth))
  }

  lemma FlatStep(rows: Table, m: Parents, levels: map<string, seq<Group>>, gs: seq<Group>, depth: nat)
    returns (kids: seq<Group>, below: seq<Entry>, rest: seq<Entry>)
    requires LevelsOk(rows, m, levels) && AtDepth(rows, m, gs, depth) && gs != []
    ensures AtDepth(rows, m, kids, depth + 1) && AtDepth(rows, m, gs[1..], depth) && depth <= |m|
    ensures forall c <- kids :: IsRow(rows, c) && c.id in m && m[c.id] == gs[0].id
    ensures forall id <- m | m[id] == gs[0].id :: id in rows && rows[id].id == id && rows[id] in kids
    ensures below == Flat(rows, m, levels, kids, depth + 1) && rest == Flat(rows, m, levels, gs[1..], depth)
    ensures Flat(rows, m, levels, gs, depth) == [Entry(gs[0], depth)] + below + rest
  {
    ChildrenAtDepth(rows, m, levels, gs[0], depth);
    kids := LevelAt(levels, gs[0].id);
    below, rest := Flat(rows, m, levels, kids, depth + 1), Flat(rows, m, levels, gs[1..], depth);
    var nodes := Build(rows, m, levels, gs, depth);
    assert nodes[1..] == Build(rows, m, levels, gs[1..], depth);
  }

  /** `e` is a row and lies at or below `c`, whose depth is `depth`. */
  ghost predicate Below(rows: Table, m: Parents, e: Entry, c: Group, depth: nat) {
    && IsRow(rows, e.group) && e.depth >= depth && RootedAt(m, e.group.id, e.depth)
    && Up(m, e.group.id, e.depth - depth) == Some(c.id)
  }

  ghost predicate BelowOne(rows: Table, m: Parents, e: Entry, gs: seq<Group>, depth: nat) {
    exists c <- gs :: Below(rows, m, e, c, depth)
  }

  lemma BelowChild(rows: Table, m: Parents, e: Entry, kids: seq<Group>, p: Group, depth: nat)
    requires BelowOne(rows, m, e, kids, depth + 1) && forall c <- kids :: c.id in m && m[c.id] == p.id
    ensures Below(rows, m, e, p, depth) && e.group.id != p.id
  {
    UpStep(m, e.group.id, e.depth - depth - 1);
    if e.group.id == p.id {
      RootedChainDistinct(m, p.id, e.depth, 0, e.depth - depth);
    }
  }

  lemma {:induction false} FlatIsSound(rows: Table, m: Parents, levels: map<string, seq<Group>>, gs: seq<Group>, depth: nat)
    requires LevelsOk(rows, m, levels) && AtDepth(rows, m, gs, depth)
    ensures forall e <- Flat(rows, m, levels, gs, depth) :: BelowOne(rows, m, e, gs, depth)
    decreases |m| + 1 - depth, |gs|
  {
    if gs != [] {
      var kids, below, rest := FlatStep(rows, m, levels, gs, depth);
      FlatIsSound(rows, m, levels, kids, depth + 1);
      FlatIsSound(rows, m, levels, gs[1..], depth);
      assert Below(rows, m, Entry(gs[0], depth), gs[0], depth);
      forall e <- below
        ensures BelowOne(rows, m, e, gs, depth)
      {
        BelowChild(rows, m, e, kids, gs[0], depth);
      }
      forall e <- rest
        ensures BelowOne(rows, m, e, gs, depth)
      {
        var c :| c in gs[1..] && Below(rows, m, e, c, depth);
        assert c in gs;
      }
    }
  }

  lemma {:induction false} FlatIsComplete(
    rows: Table, m: Parents, levels: map<string, seq<Group>>, gs: seq<Group>, depth: nat, e: Entry, c: Group)
    requires LevelsOk(rows, m, levels) && AtDepth(rows, m, gs, depth)
    requires c in gs && Below(rows, m, e, c, depth)
    ensures e in Flat(rows, m, levels, gs, depth)
    decreases |m| + 1 - depth, |gs|
  {
    var kids, below, rest := FlatStep(rows, m, levels, gs, depth);
    if c != gs[0] {
      assert c in gs[1..];
      FlatIsComplete(rows, m, levels, gs[1..], depth, e, c);
      assert e in rest;
    } else if e.depth == depth {
      assert e == Entry(gs[0], depth);
    } else {
      var c' := AncestorBelow(rows, m, e, c, kids, depth);
      FlatIsComplete(rows, m, levels, kids, depth + 1, e, c');
      assert e in below;
    }
  }

  /** The ancestor of `e` one level below `c` is a child of `c`. */
  lemma AncestorBelow(rows: Table, m: Parents, e: Entry, c: Group, kids: seq<Group>, depth: nat) returns (c': Group)
    requires Below(rows, m, e, c, depth) && e.depth > depth
    requires forall id <- m | m[id] == c.id :: id in rows && rows[id].id == id && rows[id] in kids
    ensures c' in kids && Below(rows, m, e, c', depth + 1)
  {
    var k := e.depth - depth - 1;
    UpDefinedBelow(m, e.group.id, k, e.depth);
    UpStep(m, e.group.id, k);
    c' := rows[Up(m, e.group.id, k).value];
  }

  ghost predicate NoRepeats(f: seq<Entry>) {
    forall i, j | 0 <= i < j < |f| :: f[i].group.id != f[j].group.id
  }

  lemma NoRepeatsConcat(a: seq<Entry>, b: seq<Entry>)
    requires NoRepeats(a) && NoRepeats(b) && forall x <- a, y <- b :: x.group.id != y.group.id
    ensures NoRepeats(a + b)
  {
  }

  /** Entries below different members of a level are different groups. */
  lemma BelowApart(rows: Table, m: Parents, x: Entry, c: Group, y: Entry, gs: seq<Group>, depth: nat)
    requires AtDepth(rows, m, gs, depth) && IsRow(rows, c) && c !in gs
    requires Below(rows, m, x, c, depth) && BelowOne(rows, m, y, gs, depth)
    ensures x.group.id != y.group.id
  {
    if x.group.id == y.group.id {
      RootedIsUnique(m, x.group.id, x.depth, y.depth);
    }
  }

  lemma {:induction false} FlatHasNoRepeats(rows: Table, m: Parents, levels: map<string, seq<Group>>, gs: seq<Group>, depth: nat)
    requires LevelsOk(rows, m, levels) && AtDepth(rows, m, gs, depth)
    ensures NoRepeats(Flat(rows, m, levels, gs, depth))
    decreases |m| + 1 - depth, |gs|
  {
    if gs != [] {
      var g := gs[0];
      var kids, below, rest := FlatStep(rows, m, levels, gs, depth);
      FlatHasNoRepeats(rows, m, levels, kids, depth + 1);
      FlatHasNoRepeats(rows, m, levels, gs[1..], depth);
      FlatIsSound(rows, m, levels, kids, depth + 1);
      FlatIsSound(rows, m, levels, gs[1..], depth);
      forall x <- [Entry(g, depth)] + below
        ensures Below(rows, m, x, g, depth) && (x in below ==> x.group.id != g.id)
      {
        if x in below {
          BelowChild(rows, m, x, kids, g, depth);
        }
      }
      forall x <- [Entry(g, depth)] + below, y <- rest
        ensures x.group.id != y.group.id
      {
        BelowApart(rows, m, x, g, y, gs[1..], depth);
      }
      NoRepeatsConcat([Entry(g, depth)], below);
      NoRepeatsConcat([Entry(g, depth)] + below, rest);
    }
  }

  /** Entry `j`'s parent is the nearest earlier entry that is less deep: indentation alone shows the tree. */
  ghost predicate NestedIn(m: Parents, f: seq<Entry>, i: nat, j: nat)
    requires i < j < |f|
  {
    && f[i].depth + 1 == f[j].depth
    && f[j].group.id in m && m[f[j].group.id] == f[i].group.id
    && forall k | i < k < j :: f[k].depth >= f[j].depth
  }

  ghost predicate Nested(m: Parents, f: seq<Entry>, j: nat)
    requires j < |f|
  {
    exists i: nat :: i < j && NestedIn(m, f, i, j)
  }

  lemma NestedPrepend(m: Parents, a: seq<Entry>, f: seq<Entry>, j: nat)
    requires j < |f| && Nested(m, f, j)
    ensures Nested(m, a + f, |a| + j)
  {
    var i: nat :| i < j && NestedIn(m, f, i, j);
    assert NestedIn(m, a + f, |a| + i, |a| + j);
  }

  lemma NestedAppend(m: Parents, f: seq<Entry>, b: seq<Entry>, j: nat)
    requires j < |f| && Nested(m, f, j)
    ensures Nested(m, f + b, j)
  {
    var i: nat :| i < j && NestedIn(m, f, i, j);
    assert NestedIn(m, f + b, i, j);
  }

  ghost predicate AllNested(m: Parents, f: seq<Entry>, depth: nat) {
    forall j: nat | j < |f| :: f[j].depth == depth || Nested(m, f, j)
  }

  lemma {:induction false} FlatIsNested(rows: Table, m: Parents, levels: map<string, seq<Group>>, gs: seq<Group>, depth: nat)
    requires LevelsOk(rows, m, levels) && AtDepth(rows, m, gs, depth)
    ensures AllNested(m, Flat(rows, m, levels, gs, depth), depth)
    decreases |m| + 1 - depth, |gs|
  {
    if gs != [] {
      var kids, below, rest := FlatStep(rows, m, levels, gs, depth);
      FlatIsNested(rows, m, levels, kids, depth + 1);
      FlatIsNested(rows, m, levels, gs[1..], depth);
      FlatIsSound(rows, m, levels, kids, depth + 1);
      forall j: nat | j < |[Entry(gs[0], depth)] + below + rest|
        ensures ([Entry(gs[0], depth)] + below + rest)[j].depth == depth || Nested(m, [Entry(gs[0], depth)] + below + rest, j)
      {
        NestedJoin(rows, m, gs[0], kids, below, rest, depth, j);
      }
    }
  }

  lemma NestedJoin(
    rows: Table, m: Parents, g: Group, kids: seq<Group>, below: seq<Entry>, rest: seq<Entry>, depth: nat, j: nat)
    requires (forall c <- kids :: c.id in m && m[c.id] == g.id) && (forall e <- below :: BelowOne(rows, m, e, kids, depth + 1))
    requires AllNested(m, below, depth + 1) && AllNested(m, rest, depth)
    requires j < 1 + |below| + |rest|
    ensures var f := [Entry(g, depth)] + below + rest; f[j].depth == depth || Nested(m, f, j)
  {
    var first := [Entry(g, depth)] + below;
    if 0 < j <= |below| {
      LowerIsNested(rows, m, g, kids, below, depth, j);
      NestedAppend(m, first, rest, j);
    } else if j > 0 && rest[j - |first|].depth != depth {
      NestedPrepend(m, first, rest, j - |first|);
    }
  }

  lemma LowerIsNested(rows: Table, m: Parents, g: Group, kids: seq<Group>, below: seq<Entry>, depth: nat, j: nat)
    requires (forall c <- kids :: c.id in m && m[c.id] == g.id) && (forall e <- below :: BelowOne(rows, m, e, kids, depth + 1))
    requires AllNested(m, below, depth + 1) && 0 < j <= |below|
    ensures Nested(m, [Entry(g, depth)] + below, j)
  {
    if below[j - 1].depth == depth + 1 {
      ChildIsNested(rows, m, g, kids, below, depth, j);
    } else {
      NestedPrepend(m, [Entry(g, depth)], below, j - 1);
    }
  }

  /** A child of the first group of a level: everything between the two is at least as deep. */
  lemma ChildIsNested(rows: Table, m: Parents, g: Group, kids: seq<Group>, below: seq<Entry>, depth: nat, j: nat)
    requires (forall c <- kids :: c.id in m && m[c.id] == g.id) && (forall e <- below :: BelowOne(rows, m, e, kids, depth + 1))
    requires 0 < j <= |below| && below[j - 1].depth == depth + 1
    ensures Nested(m, [Entry(g, depth)] + below, j)
  {
    var f := [Entry(g, depth)] + below;
    forall k | 0 < k <= j
      ensures f[k].depth >= depth + 1
    {
      assert below[k - 1] in below;
    }
    assert below[j - 1] in below;
    var c :| c in kids && Below(rows, m, below[j - 1], c, depth + 1);
    assert NestedIn(m, f, 0, j);
  }

  // ----- Main results about the flattened tree -----

  /**
   * For any listing, even with dangling or cyclic parents: an entry appears iff its group's chain of
   * parents ends after exactly `depth` links, and no group appears twice.
   */
  lemma FlatListsRootedOnce(groups: seq<Group>, nameLeq: (string, string) -> bool)
    requires Listing(groups)
    ensures forall e :: e in FlattenedTree(groups, nameLeq)
              <==> e.group in groups && RootedAt(LinksOf(RowsOf(groups)), e.group.id, e.depth)
    ensures NoRepeats(FlattenedTree(groups, nameLeq))
  {
    var rows, roots, levels := RowsOf(groups), Level(groups, nameLeq, None), Levels(groups, nameLeq);
    var m := LinksOf(rows);
    LevelsAreOk(groups, nameLeq);
    RootsAtDepth(groups, nameLeq);
    FlatIsSound(rows, m, levels, roots, 0);
    FlatHasNoRepeats(rows, m, levels, roots, 0);
    forall e: Entry
      ensures e in FlattenedTree(groups, nameLeq) <==> e.group in groups && RootedAt(m, e.group.id, e.depth)
    {
      if e.group in groups && RootedAt(m, e.group.id, e.depth) {
        var c := TopIsRoot(groups, nameLeq, e);
        FlatIsComplete(rows, m, levels, roots, 0, e, c);
      }
      if e in FlattenedTree(groups, nameLeq) {
        assert BelowOne(rows, m, e, roots, 0);
      }
    }
  }

  lemma TopIsRoot(groups: seq<Group>, nameLeq: (string, string) -> bool, e: Entry) returns (c: Group)
    requires Listing(groups) && e.group in groups && RootedAt(LinksOf(RowsOf(groups)), e.group.id, e.depth)
    ensures c in Level(groups, nameLeq, None) && Below(RowsOf(groups), LinksOf(RowsOf(groups)), e, c, 0)
  {
    var rows := RowsOf(groups);
    var m := LinksOf(rows);
    UpStep(m, e.group.id, e.depth);
    if e.depth > 0 {
      UpStep(m, e.group.id, e.depth - 1);
    }
    c := rows[Up(m, e.group.id, e.depth).value];
    assert EffectiveParent(c, rows) == None;
  }

  /** Each entry that is not top-level follows its parent, the nearest earlier entry that is less deep. */
  lemma FlatShowsTree(groups: seq<Group>, nameLeq: (string, string) -> bool, j: nat)
    requires Listing(groups) && j < |FlattenedTree(groups, nameLeq)| && FlattenedTree(groups, nameLeq)[j].depth > 0
    ensures Nested(LinksOf(RowsOf(groups)), FlattenedTree(groups, nameLeq), j)
  {
    LevelsAreOk(groups, nameLeq);
    RootsAtDepth(groups, nameLeq);
    var rows := RowsOf(groups);
    FlatIsNested(rows, LinksOf(rows), Levels(groups, nameLeq), Level(groups, nameLeq, None), 0);
  }

  /** A table kept by the repository loses no group on the way to the sidebar. */
  lemma FlatListsEveryGroup(groups: seq<Group>, nameLeq: (string, string) -> bool, g: Group)
    requires Listing(groups) && Forest(RowsOf(groups)) && g in groups
    ensures exists e <- FlattenedTree(groups, nameLeq) :: e.group == g
  {
    var rows := RowsOf(groups);
    FewerLinksAcyclic(ParentsOf(rows), LinksOf(rows));
    var k := AcyclicIsRooted(LinksOf(rows), g.id);
    FlatListsRootedOnce(groups, nameLeq);
    assert Entry(g, k) in FlattenedTree(groups, nameLeq);
  }

  // ----- The ancestor walk of host inheritance -----

  /** The chain of rows upward from `start`, until it ends or repeats. */
  method OrderedAncestorIds(start: Option<string>, groups: seq<Group>) returns (chain: seq<string>)
    requires Listing(groups)
    ensures if IsLink(start) && start.value in RowsOf(groups)
      then IsAncestorChain(LinksOf(RowsOf(groups)), start.value, chain) else chain == []
  {
    if !IsLink(start) {
      return [];
    }
    chain := ClimbFrom(start, RowsOf(groups));
  }

  ghost predicate IsAncestorChain(m: Parents, start: string, chain: seq<string>) {
    && chain != [] && Distinct(chain)
    && (forall i: nat | i < |chain| :: Up(m, start, i) == Some(chain[i]))
    && var next := Up(m, start, |chain|); next.None? || next.value in chain
  }

  method ClimbFrom(start: Option<string>, byId: Table) returns (chain: seq<string>)
    requires IsLink(start) && "" !in byId
    ensures if start.value in byId then IsAncestorChain(LinksOf(byId), start.value, chain) else chain == []
  {
    chain := [];
    ghost var m := LinksOf(byId);
    var seen: set<string> := {};
    var current := start;
    while IsLink(current) && current.value in byId && current.value !in seen
      invariant seen == set x | x in chain
      invariant forall i: nat | i < |chain| :: Up(m, start.value, i) == Some(chain[i])
      invariant chain == [] ==> current == start
      invariant start.value !in byId ==> chain == []
      invariant start.value in byId ==>
        Up(m, start.value, |chain|) == if IsLink(current) && current.value in byId then current else None
      invariant Distinct(chain)
      decreases byId.Keys - seen
    {
      seen := seen + {current.value};
      chain := chain + [current.value];
      UpStep(m, start.value, |chain| - 1);
      current := byId[current.value].parentId;
    }
  }

  /** The ancestor walk of a rooted group is as long as the group's depth in the tree, plus itself. */
  lemma AncestorCountIsDepth(m: Parents, id: string, depth: nat, chain: seq<string>)
    requires RootedAt(m, id, depth) && IsAncestorChain(m, id, chain)
    ensures depth == |chain| - 1
  {
    var n := |chain|;
    if Up(m, id, n).Some? {
      var i :| 0 <= i < n && chain[i] == Up(m, id, n).value;
      if n <= depth {
        RootedChainDistinct(m, id, depth, i, n);
      }
    } else {
      RootedIsUnique(m, id, n - 1, depth);
    }
  }
}
