/** The GPX export tree: flat rows nested under the parents they name. */
module GpxForest {
  import opened Options
  import opened Picking

  /** One loaded node: its id, the track it names, and everything else it carries. */
  datatype Row = Row(id: string, parent: Option<string>, data: string)

  datatype Tree = Tree(id: string, data: string, children: seq<Tree>)

  type ChildrenMap = map<string, seq<Tree>>

  function Leaf(row: Row): Tree {
    Tree(row.id, row.data, [])
  }

  function Leaves(rows: seq<Row>): (r: seq<Tree>)
    ensures |r| == |rows| && forall i :: 0 <= i < |rows| ==> r[i] == Leaf(rows[i])
  {
    seq(|rows|, i requires 0 <= i < |rows| => Leaf(rows[i]))
  }

  // ---------------------------------------------------------------------------
  // What the rows say
  // ---------------------------------------------------------------------------

  predicate Loaded(flat: seq<Row>, id: string) {
    exists i :: 0 <= i < |flat| && flat[i].id == id
  }

  predicate DistinctIds(rows: seq<Row>) {
    forall i, j :: 0 <= i < j < |rows| ==> rows[i].id != rows[j].id
  }

  /** A row that names no loaded parent. */
  predicate IsRoot(flat: seq<Row>, row: Row) {
    row.parent.None? || !Loaded(flat, row.parent.value)
  }

  /** The rows among `rows` that name `id` as their parent, in order. */
  function ChildRows(rows: seq<Row>, id: string): seq<Row> {
    if rows == [] then []
    else
      var last := rows[|rows| - 1];
      ChildRows(rows[..|rows| - 1], id) + if last.parent == Some(id) then [last] else []
  }

  /** The rows among `rows` that stay roots, in order. */
  function RootRows(flat: seq<Row>, rows: seq<Row>): seq<Row> {
    if rows == [] then []
    else
      var last := rows[|rows| - 1];
      RootRows(flat, rows[..|rows| - 1]) + if IsRoot(flat, last) then [last] else []
  }

  /** Children grouped by loaded parent, as the first loop leaves them. */
  ghost predicate Groups(flat: seq<Row>, rows: seq<Row>, m: ChildrenMap) {
    && (forall id :: id in m <==> Loaded(flat, id) && ChildRows(rows, id) != [])
    && (forall id :: id in m ==> m[id] == Leaves(ChildRows(rows, id)))
  }

  // ---------------------------------------------------------------------------
  // Attaching children
  // ---------------------------------------------------------------------------

  function Without(m: ChildrenMap, id: string): (r: ChildrenMap)
    requires id in m
    ensures |r| == |m| - 1
    ensures forall k :: k in r <==> k in m && k != id
    ensures forall k :: k in r ==> r[k] == m[k]
  {
    assert (m - {id}).Keys == m.Keys - {id};
    m - {id}
  }

  /** `left` is what remains of `m`. */
  predicate Remains(left: ChildrenMap, m: ChildrenMap) {
    |left| <= |m| && forall k :: k in left ==> k in m && left[k] == m[k]
  }

  /** The node with its children taken out of the map, and the map that is left. */
  function Attach(node: Tree, m: ChildrenMap): (r: (Tree, ChildrenMap))
    ensures Remains(r.1, m)
    decreases |m|, 0, 0
  {
    if node.id !in m then (node, m)
    else
      var attached := AttachAll(m[node.id], Without(m, node.id));
      (node.(children := attached.0), attached.1)
  }

  function AttachAll(nodes: seq<Tree>, m: ChildrenMap): (r: (seq<Tree>, ChildrenMap))
    ensures Remains(r.1, m) && |r.0| == |nodes|
    decreases |m|, 1, |nodes|
  {
    if nodes == [] then ([], m)
    else
      var first := Attach(nodes[0], m);
      var rest := AttachAll(nodes[1..], first.1);
      ([first.0] + rest.0, rest.1)
  }

  /** The map the recursion shrinks. */
  class Pending {
    var children: ChildrenMap

    constructor ()
      ensures children == map[]
    {
      children := map[];
    }

    /** Appends to a parent's list, creating it on first use. */
    method Push(id: string, node: Tree)
      modifies this
      ensures children == old(children)[id := (if id in old(children) then old(children)[id] else []) + [node]]
    {
      var list := if id in children then children[id] else [];
      children := children[id := list + [node]];
    }

    method AttachChildren(node: Tree) returns (r: Tree)
      modifies this
      ensures r == Attach(node, old(children)).0 && children == Attach(node, old(children)).1
      decreases |children|, 0
    {
      hide AttachAll;
      r := node;
      if node.id in children {
        var nodes := children[node.id];
        children := Without(children, node.id);
        nodes := AttachEach(nodes);
        r := node.(children := nodes);
      }
    }

    method AttachEach(nodes: seq<Tree>) returns (done: seq<Tree>)
      modifies this
      ensures done == AttachAll(nodes, old(children)).0 && children == AttachAll(nodes, old(children)).1
      decreases |children|, 1
    {
      hide Attach;
      done := [];
      ghost var m := children;
      for i := 0 to |nodes|
        invariant Remains(children, m)
        invariant AttachAll(nodes, m).0 == done + AttachAll(nodes[i..], children).0
        invariant AttachAll(nodes, m).1 == AttachAll(nodes[i..], children).1
      {
        assert nodes[i..][0] == nodes[i] && nodes[i..][1..] == nodes[i + 1..];
        var child := AttachChildren(nodes[i]);
        done := done + [child];
      }
      assert AttachAll(nodes[|nodes|..], children) == ([], children);
    }
  }

  // ---------------------------------------------------------------------------
  // The forest
  // ---------------------------------------------------------------------------

  /** What `build_export_tree` returns. */
  ghost predicate IsForest(flat: seq<Row>, forest: seq<Tree>) {
    exists m :: Groups(flat, flat, m) && forest == AttachAll(Leaves(RootRows(flat, flat)), m).0
  }

  method BuildExportTree(flat: seq<Row>) returns (forest: seq<Tree>)
    ensures IsForest(flat, forest)
    ensures DistinctIds(flat) ==>
      && StandFor(forest, RootRows(flat, flat))
      && AllNested(flat, forest)
      && (forall id :: multiset(ForestIds(forest))[id] == if Rooted(flat, id) then 1 else 0)
      && ListsRoots(flat, forest)
      && forall i :: 0 <= i < |forest| ==> NestedAsNamed(flat, forest[i])
  {
    hide ListsRoots, NestedAsNamed;
    hide Rooted, AllNested, StandFor, ForestIds, DistinctIds, AttachAll, Groups, RootRows, IsRoot;
    var pending := new Pending();
    var roots: seq<Tree> := [];
    GroupsStart(flat);
    for i := 0 to |flat|
      invariant Groups(flat, flat[..i], pending.children)
      invariant roots == Leaves(RootRows(flat, flat[..i]))
    {
      var row := flat[i];
      ghost var before := pending.children;
      GroupsGrow(flat, flat[..i], row, before);
      RootsGrow(flat, flat[..i], row);
      if !IsRoot(flat, row) {
        HasParent(flat, row);
        pending.Push(row.parent.value, Leaf(row));
      } else {
        roots := roots + [Leaf(row)];
      }
      assert flat[..i + 1] == flat[..i] + [row];
    }
    assert flat[..|flat|] == flat;
    forest := pending.AttachEach(roots);
    if DistinctIds(flat) {
      ForestConserves(flat, forest);
      ForestAsNamed(flat, forest);
    }
  }

  lemma {:induction false} HasParent(flat: seq<Row>, row: Row)
    requires !IsRoot(flat, row)
    ensures row.parent.Some?
  {
  }

  lemma {:induction false} GroupsStart(flat: seq<Row>)
    ensures Groups(flat, flat[..0], map[]) && Leaves(RootRows(flat, flat[..0])) == []
  {
  }

  lemma {:induction false} RootsGrow(flat: seq<Row>, rows: seq<Row>, row: Row)
    ensures Leaves(RootRows(flat, rows + [row]))
         == Leaves(RootRows(flat, rows)) + if IsRoot(flat, row) then [Leaf(row)] else []
  {
    hide IsRoot;
    assert (rows + [row])[..|rows|] == rows;
  }

  /** The groups after one more row. */
  function Grouped(flat: seq<Row>, m: ChildrenMap, row: Row): ChildrenMap {
    if IsRoot(flat, row) then m
    else
      var id := row.parent.value;
      m[id := (if id in m then m[id] else []) + [Leaf(row)]]
  }

  lemma {:induction false} GroupsGrow(flat: seq<Row>, rows: seq<Row>, row: Row, m: ChildrenMap)
    requires Groups(flat, rows, m)
    ensures Groups(flat, rows + [row], Grouped(flat, m, row))
  {
    var grown, after := rows + [row], Grouped(flat, m, row);
    assert grown[..|rows|] == rows;
    forall id
      ensures id in after <==> Loaded(flat, id) && ChildRows(grown, id) != []
      ensures id in after ==> after[id] == Leaves(ChildRows(grown, id))
    {
    }
  }

  // ---------------------------------------------------------------------------
  // Ancestry
  // ---------------------------------------------------------------------------

  /** `p` is loaded and is the parent the row `id` names. */
  ghost predicate ParentOf(flat: seq<Row>, id: string, p: string) {
    Loaded(flat, p) && exists i :: 0 <= i < |flat| && flat[i].id == id && flat[i].parent == Some(p)
  }

  /** Following parents from `id`, `steps` times, arrives at `top`. */
  ghost predicate Climbs(flat: seq<Row>, id: string, top: string, steps: nat)
    decreases steps
  {
    if steps == 0 then id == top && Loaded(flat, id)
    else exists p :: ParentOf(flat, id, p) && Climbs(flat, p, top, steps - 1)
  }

  ghost predicate Under(flat: seq<Row>, id: string, top: string) {
    exists steps: nat :: Climbs(flat, id, top, steps)
  }

  ghost predicate RootId(flat: seq<Row>, id: string) {
    exists i :: 0 <= i < |flat| && flat[i].id == id && IsRoot(flat, flat[i])
  }

  /** The parent chain of `id` ends at a root after `depth` steps. */
  ghost predicate DepthIs(flat: seq<Row>, id: string, depth: nat)
    decreases depth
  {
    if depth == 0 then RootId(flat, id)
    else exists p :: ParentOf(flat, id, p) && DepthIs(flat, p, depth - 1)
  }

  /** The parent chain of `id` among the loaded rows ends at a root. */
  ghost predicate Rooted(flat: seq<Row>, id: string) {
    exists depth: nat :: DepthIs(flat, id, depth)
  }

  lemma {:induction false} ParentUnique(flat: seq<Row>, id: string, p: string, q: string)
    requires DistinctIds(flat) && ParentOf(flat, id, p) && ParentOf(flat, id, q)
    ensures p == q && !RootId(flat, id)
  {
  }

  lemma {:induction false} DepthUnique(flat: seq<Row>, id: string, a: nat, b: nat)
    requires DistinctIds(flat) && DepthIs(flat, id, a) && DepthIs(flat, id, b)
    ensures a == b
    decreases a
  {
    hide ParentOf, RootId;
    if a > 0 && b > 0 {
      var p :| ParentOf(flat, id, p) && DepthIs(flat, p, a - 1);
      var q :| ParentOf(flat, id, q) && DepthIs(flat, q, b - 1);
      ParentUnique(flat, id, p, q);
      DepthUnique(flat, p, a - 1, b - 1);
    } else if a > 0 {
      var p :| ParentOf(flat, id, p) && DepthIs(flat, p, a - 1);
      ParentUnique(flat, id, p, p);
    } else if b > 0 {
      var q :| ParentOf(flat, id, q) && DepthIs(flat, q, b - 1);
      ParentUnique(flat, id, q, q);
    }
  }

  /** Climbing `steps` from `id` to a node at `depth` puts `id` at `depth + steps`. */
  lemma {:induction false} ClimbDepth(flat: seq<Row>, id: string, top: string, steps: nat, depth: nat)
    requires Climbs(flat, id, top, steps) && DepthIs(flat, top, depth)
    ensures DepthIs(flat, id, depth + steps)
    decreases steps
  {
    hide ParentOf, RootId;
    if steps > 0 {
      var p :| ParentOf(flat, id, p) && Climbs(flat, p, top, steps - 1);
      ClimbDepth(flat, p, top, steps - 1, depth);
    }
  }

  lemma {:induction false} ClimbUnique(flat: seq<Row>, id: string, a: string, b: string, steps: nat)
    requires DistinctIds(flat) && Climbs(flat, id, a, steps) && Climbs(flat, id, b, steps)
    ensures a == b
    decreases steps
  {
    hide ParentOf;
    if steps > 0 {
      var p :| ParentOf(flat, id, p) && Climbs(flat, p, a, steps - 1);
      var q :| ParentOf(flat, id, q) && Climbs(flat, q, b, steps - 1);
      ParentUnique(flat, id, p, q);
      ClimbUnique(flat, p, a, b, steps - 1);
    }
  }

  /** Nodes at the same depth have no descendant in common. */
  lemma {:induction false} SameDepthDisjoint(flat: seq<Row>, id: string, a: string, b: string, depth: nat)
    requires DistinctIds(flat) && DepthIs(flat, a, depth) && DepthIs(flat, b, depth)
    requires Under(flat, id, a) && Under(flat, id, b)
    ensures a == b
  {
    hide Climbs, DepthIs;
    var m: nat :| Climbs(flat, id, a, m);
    var n: nat :| Climbs(flat, id, b, n);
    ClimbDepth(flat, id, a, m, depth);
    ClimbDepth(flat, id, b, n, depth);
    DepthUnique(flat, id, depth + m, depth + n);
    ClimbUnique(flat, id, a, b, m);
  }

  /** One more step at the top of a climb. */
  lemma {:induction false} ClimbFurther(flat: seq<Row>, id: string, middle: string, top: string, steps: nat)
    requires Climbs(flat, id, middle, steps) && ParentOf(flat, middle, top)
    ensures Climbs(flat, id, top, steps + 1)
    decreases steps
  {
    hide ParentOf, Loaded;
    if steps == 0 {
      assert Climbs(flat, top, top, 0) by {
        ParentLoaded(flat, middle, top);
      }
    } else {
      var p :| ParentOf(flat, id, p) && Climbs(flat, p, middle, steps - 1);
      ClimbFurther(flat, p, middle, top, steps - 1);
    }
  }

  lemma {:induction false} ParentLoaded(flat: seq<Row>, id: string, p: string)
    requires ParentOf(flat, id, p)
    ensures Loaded(flat, p) && Loaded(flat, id)
  {
  }

  /** Below `top` is `top` itself, or something below one of its children. */
  lemma {:induction false} UnderSplit(flat: seq<Row>, id: string, top: string, steps: nat) returns (child: string)
    requires Climbs(flat, id, top, steps) && steps > 0
    ensures ParentOf(flat, child, top) && Climbs(flat, id, child, steps - 1)
    decreases steps
  {
    hide ParentOf;
    var p :| ParentOf(flat, id, p) && Climbs(flat, p, top, steps - 1);
    if steps == 1 {
      child := id;
      ParentLoaded(flat, id, top);
    } else {
      child := UnderSplit(flat, p, top, steps - 1);
    }
  }

  // ---------------------------------------------------------------------------
  // Child rows
  // ---------------------------------------------------------------------------

  lemma {:induction false} ChildRowsMembers(rows: seq<Row>, id: string)
    ensures forall r :: r in ChildRows(rows, id) <==> r in rows && r.parent == Some(id)
  {
    if rows != [] {
      ChildRowsMembers(rows[..|rows| - 1], id);
      assert rows == rows[..|rows| - 1] + [rows[|rows| - 1]];
    }
  }

  lemma {:induction false} ChildRowsDistinct(rows: seq<Row>, id: string)
    requires DistinctIds(rows)
    ensures DistinctIds(ChildRows(rows, id))
  {
    if rows != [] {
      var front, last := rows[..|rows| - 1], rows[|rows| - 1];
      ChildRowsDistinct(front, id);
      ChildRowsMembers(front, id);
      forall r | r in ChildRows(front, id) ensures r.id != last.id {
        var k :| 0 <= k < |front| && front[k] == r;
        assert rows[k] == r;
      }
    }
  }

  lemma {:induction false} RootRowsMembers(flat: seq<Row>, rows: seq<Row>)
    ensures forall r :: r in RootRows(flat, rows) <==> r in rows && IsRoot(flat, r)
  {
    hide IsRoot;
    if rows != [] {
      RootRowsMembers(flat, rows[..|rows| - 1]);
      assert rows == rows[..|rows| - 1] + [rows[|rows| - 1]];
    }
  }

  lemma {:induction false} RootRowsDistinct(flat: seq<Row>, rows: seq<Row>)
    requires DistinctIds(rows)
    ensures DistinctIds(RootRows(flat, rows))
  {
    hide IsRoot;
    if rows != [] {
      var front, last := rows[..|rows| - 1], rows[|rows| - 1];
      RootRowsDistinct(flat, front);
      RootRowsMembers(flat, front);
      forall r | r in RootRows(flat, front) ensures r.id != last.id {
        var k :| 0 <= k < |front| && front[k] == r;
        assert rows[k] == r;
      }
    }
  }

  // ---------------------------------------------------------------------------
  // What a built tree holds
  // ---------------------------------------------------------------------------

  /** All ids of a tree, and of a list of trees, in document order. */
  function Ids(t: Tree): seq<string>
    decreases t, 0
  {
    [t.id] + ForestIds(t.children)
  }

  function ForestIds(ts: seq<Tree>): seq<string>
    decreases ts
  {
    if ts == [] then [] else Ids(ts[0]) + ForestIds(ts[1..])
  }

  /** The trees stand for exactly these rows, in this order. */
  ghost predicate StandFor(ts: seq<Tree>, rows: seq<Row>) {
    |ts| == |rows| && forall i :: 0 <= i < |ts| ==> ts[i].id == rows[i].id && ts[i].data == rows[i].data
  }

  /** At every level, a node's children are exactly the rows that name it, in input order. */
  ghost predicate WellNested(flat: seq<Row>, t: Tree) {
    && StandFor(t.children, ChildRows(flat, t.id))
    && forall i :: 0 <= i < |t.children| ==> WellNested(flat, t.children[i])
  }

  ghost predicate AllNested(flat: seq<Row>, ts: seq<Tree>) {
    forall i :: 0 <= i < |ts| ==> WellNested(flat, ts[i])
  }

  ghost predicate UnderSome(flat: seq<Row>, id: string, rows: seq<Row>) {
    exists i :: 0 <= i < |rows| && Under(flat, id, rows[i].id)
  }

  /** The map still holds the groups of every node below `rows`, and no foreign group. */
  ghost predicate Holds(flat: seq<Row>, m: ChildrenMap, rows: seq<Row>) {
    && (forall id :: id in m ==> m[id] == Leaves(ChildRows(flat, id)))
    && (forall id :: UnderSome(flat, id, rows) && ChildRows(flat, id) != [] ==> id in m)
  }

  /** Rows at one depth, with distinct ids. */
  ghost predicate Level(flat: seq<Row>, rows: seq<Row>, depth: nat) {
    DistinctIds(rows) && forall i :: 0 <= i < |rows| ==> DepthIs(flat, rows[i].id, depth)
  }

  /** What attaching `rows` yields: nested trees, each descendant exactly once, its group consumed. */
  ghost predicate Attached(flat: seq<Row>, rows: seq<Row>, m: ChildrenMap, ts: seq<Tree>, left: ChildrenMap) {
    && StandFor(ts, rows)
    && AllNested(flat, ts)
    && (forall id :: multiset(ForestIds(ts))[id] == if UnderSome(flat, id, rows) then 1 else 0)
    && (forall id :: id in left <==> id in m && !UnderSome(flat, id, rows))
  }

  lemma {:induction false} AttachAllCorrect(flat: seq<Row>, rows: seq<Row>, depth: nat, m: ChildrenMap)
    requires DistinctIds(flat) && Level(flat, rows, depth) && Holds(flat, m, rows)
    ensures var r := AttachAll(Leaves(rows), m); Attached(flat, rows, m, r.0, r.1)
    decreases |m|, 1, |rows|
  {
    hide Under, DepthIs, WellNested, Attach, Ids;
    if rows == [] {
    } else {
      var row, rest := rows[0], rows[1..];
      AttachCorrect(flat, row, depth, m);
      var first := Attach(Leaf(row), m);
      HoldsRest(flat, rows, depth, m, first.1);
      AttachAllCorrect(flat, rest, depth, first.1);
      var others := AttachAll(Leaves(rest), first.1);
      assert Leaves(rows)[1..] == Leaves(rest);
      assert AttachAll(Leaves(rows), m) == ([first.0] + others.0, others.1);
      AttachedCons(flat, rows, depth, m, first.0, first.1, others.0, others.1);
    }
  }

  ghost predicate AttachedOne(flat: seq<Row>, row: Row, m: ChildrenMap, t: Tree, left: ChildrenMap) {
    && t.id == row.id && t.data == row.data && WellNested(flat, t)
    && (forall id :: multiset(Ids(t))[id] == if Under(flat, id, row.id) then 1 else 0)
    && (forall id :: id in left <==> id in m && !Under(flat, id, row.id))
  }

  lemma {:induction false} HoldsRest(flat: seq<Row>, rows: seq<Row>, depth: nat, m: ChildrenMap, left: ChildrenMap)
    requires DistinctIds(flat) && rows != [] && Level(flat, rows, depth) && Holds(flat, m, rows)
    requires Remains(left, m) && forall id :: id in left <==> id in m && !Under(flat, id, rows[0].id)
    ensures Level(flat, rows[1..], depth) && Holds(flat, left, rows[1..])
  {
    hide Under, DepthIs, ChildRows;
    forall id | UnderSome(flat, id, rows[1..]) && ChildRows(flat, id) != [] ensures id in left {
      var i :| 0 <= i < |rows[1..]| && Under(flat, id, rows[1..][i].id);
      assert rows[i + 1] == rows[1..][i];
      assert UnderSome(flat, id, rows);
      if Under(flat, id, rows[0].id) {
        SameDepthDisjoint(flat, id, rows[0].id, rows[i + 1].id, depth);
        assert false;
      }
    }
  }

  lemma {:induction false} AttachedCons(flat: seq<Row>, rows: seq<Row>, depth: nat, m: ChildrenMap,
      t: Tree, middle: ChildrenMap, ts: seq<Tree>, left: ChildrenMap)
    requires DistinctIds(flat) && rows != [] && Level(flat, rows, depth)
    requires AttachedOne(flat, rows[0], m, t, middle) && Attached(flat, rows[1..], middle, ts, left)
    ensures Attached(flat, rows, m, [t] + ts, left)
  {
    hide Under, DepthIs, WellNested, Ids;
    var all := [t] + ts;
    assert all[1..] == ts;
    assert ForestIds(all) == Ids(t) + ForestIds(ts);
    forall id
      ensures UnderSome(flat, id, rows) <==> Under(flat, id, rows[0].id) || UnderSome(flat, id, rows[1..])
      ensures !(Under(flat, id, rows[0].id) && UnderSome(flat, id, rows[1..]))
    {
      UnderSomeCons(flat, id, rows, depth);
    }
    forall i | 0 <= i < |all|
      ensures all[i].id == rows[i].id && all[i].data == rows[i].data && WellNested(flat, all[i])
    {
      if i > 0 {
        assert all[i] == ts[i - 1] && rows[i] == rows[1..][i - 1];
      }
    }
  }

  lemma {:induction false} UnderSomeCons(flat: seq<Row>, id: string, rows: seq<Row>, depth: nat)
    requires DistinctIds(flat) && rows != [] && Level(flat, rows, depth)
    ensures UnderSome(flat, id, rows) <==> Under(flat, id, rows[0].id) || UnderSome(flat, id, rows[1..])
    ensures !(Under(flat, id, rows[0].id) && UnderSome(flat, id, rows[1..]))
  {
    hide Under, DepthIs;
    if UnderSome(flat, id, rows) && !Under(flat, id, rows[0].id) {
      var i :| 0 <= i < |rows| && Under(flat, id, rows[i].id);
      assert rows[1..][i - 1] == rows[i];
    }
    if UnderSome(flat, id, rows[1..]) {
      var i :| 0 <= i < |rows[1..]| && Under(flat, id, rows[1..][i].id);
      assert rows[i + 1] == rows[1..][i];
      if Under(flat, id, rows[0].id) {
        SameDepthDisjoint(flat, id, rows[0].id, rows[i + 1].id, depth);
        assert false;
      }
    }
  }

  lemma {:induction false} AttachCorrect(flat: seq<Row>, row: Row, depth: nat, m: ChildrenMap)
    requires DistinctIds(flat) && DepthIs(flat, row.id, depth)
    requires forall id :: id in m ==> m[id] == Leaves(ChildRows(flat, id))
    requires forall id :: Under(flat, id, row.id) && ChildRows(flat, id) != [] ==> id in m
    ensures var r := Attach(Leaf(row), m); AttachedOne(flat, row, m, r.0, r.1)
    decreases |m|, 0, 0
  {
    hide Under, DepthIs, AttachAll, ChildRows;
    var children := ChildRows(flat, row.id);
    DepthLoaded(flat, row.id, depth);
    UnderSelf(flat, row.id);
    if row.id in m {
      var rest := Without(m, row.id);
      ChildLevel(flat, row.id, depth);
      ChildHolds(flat, row.id, depth, m);
      AttachAllCorrect(flat, children, depth + 1, rest);
      var r := AttachAll(Leaves(children), rest);
      AttachedParent(flat, row, depth, m, r.0, r.1);
    } else {
      AttachedLeaf(flat, row, depth, m);
    }
  }

  lemma {:induction false} DepthLoaded(flat: seq<Row>, id: string, depth: nat)
    requires DepthIs(flat, id, depth)
    ensures Loaded(flat, id)
  {
  }

  lemma {:induction false} UnderSelf(flat: seq<Row>, id: string)
    requires Loaded(flat, id)
    ensures Under(flat, id, id)
  {
    assert Climbs(flat, id, id, 0);
  }

  /** The children of a node at `depth` are at the next depth. */
  lemma {:induction false} ChildLevel(flat: seq<Row>, id: string, depth: nat)
    requires DistinctIds(flat) && DepthIs(flat, id, depth)
    ensures Level(flat, ChildRows(flat, id), depth + 1)
  {
    hide ChildRows;
    var children := ChildRows(flat, id);
    ChildRowsDistinct(flat, id);
    ChildRowsMembers(flat, id);
    DepthLoaded(flat, id, depth);
    forall i | 0 <= i < |children| ensures DepthIs(flat, children[i].id, depth + 1) {
      assert children[i] in children;
      assert ParentOf(flat, children[i].id, id);
    }
  }

  lemma {:induction false} ChildIsParented(flat: seq<Row>, id: string, child: string)
    requires DistinctIds(flat) && Loaded(flat, id)
    ensures ParentOf(flat, child, id) <==> exists r :: r in ChildRows(flat, id) && r.id == child
  {
    hide ChildRows;
    ChildRowsMembers(flat, id);
    if ParentOf(flat, child, id) {
      var k :| 0 <= k < |flat| && flat[k].id == child && flat[k].parent == Some(id);
      assert flat[k] in ChildRows(flat, id);
    }
    if r :| r in ChildRows(flat, id) && r.id == child {
      assert r in flat;
    }
  }

  /** Below a node: the node, and what is below its children; never both. */
  lemma {:induction false} UnderChildren(flat: seq<Row>, id: string, top: string, depth: nat)
    requires DistinctIds(flat) && DepthIs(flat, top, depth)
    ensures Under(flat, id, top) <==> id == top || UnderSome(flat, id, ChildRows(flat, top))
    ensures !(id == top && UnderSome(flat, id, ChildRows(flat, top)))
  {
    hide ChildRows, Climbs, DepthIs, ParentOf;
    var children := ChildRows(flat, top);
    DepthLoaded(flat, top, depth);
    if Under(flat, id, top) {
      var steps: nat :| Climbs(flat, id, top, steps);
      if steps == 0 {
        ClimbNone(flat, id, top);
      } else {
        var child := UnderSplit(flat, id, top, steps);
        ChildIsParented(flat, top, child);
      }
    }
    if UnderSome(flat, id, children) {
      var i :| 0 <= i < |children| && Under(flat, id, children[i].id);
      var steps: nat :| Climbs(flat, id, children[i].id, steps);
      assert children[i] in children;
      ChildIsParented(flat, top, children[i].id);
      ClimbFurther(flat, id, children[i].id, top, steps);
      if id == top {
        ClimbDepth(flat, id, top, steps + 1, depth);
        DepthUnique(flat, id, depth, depth + steps + 1);
        assert false;
      }
    }
    if id == top {
      UnderSelf(flat, id);
    }
  }

  lemma {:induction false} ClimbNone(flat: seq<Row>, id: string, top: string)
    requires Climbs(flat, id, top, 0)
    ensures id == top
  {
  }

  lemma {:induction false} ChildHolds(flat: seq<Row>, top: string, depth: nat, m: ChildrenMap)
    requires DistinctIds(flat) && DepthIs(flat, top, depth) && top in m
    requires forall id :: id in m ==> m[id] == Leaves(ChildRows(flat, id))
    requires forall id :: Under(flat, id, top) && ChildRows(flat, id) != [] ==> id in m
    ensures Holds(flat, Without(m, top), ChildRows(flat, top))
  {
    hide ChildRows, Under, DepthIs, UnderSome;
    forall id | UnderSome(flat, id, ChildRows(flat, top)) && ChildRows(flat, id) != []
      ensures id in Without(m, top)
    {
      UnderChildren(flat, id, top, depth);
    }
  }

  /** One id below a node: counted once in the node's tree, and gone from the map. */
  lemma {:induction false} ParentCounts(flat: seq<Row>, row: Row, depth: nat, m: ChildrenMap,
                                        ts: seq<Tree>, left: ChildrenMap, id: string)
    requires DistinctIds(flat) && DepthIs(flat, row.id, depth) && row.id in m
    requires Attached(flat, ChildRows(flat, row.id), Without(m, row.id), ts, left)
    ensures multiset([row.id] + ForestIds(ts))[id] == if Under(flat, id, row.id) then 1 else 0
    ensures id in left <==> id in m && !Under(flat, id, row.id)
  {
    hide ChildRows, Under, DepthIs, UnderSome, StandFor, AllNested;
    UnderChildren(flat, id, row.id, depth);
    assert multiset([row.id] + ForestIds(ts)) == multiset([row.id]) + multiset(ForestIds(ts));
  }

  lemma {:induction false} ParentNested(flat: seq<Row>, row: Row, m: ChildrenMap, ts: seq<Tree>, left: ChildrenMap)
    requires Attached(flat, ChildRows(flat, row.id), m, ts, left)
    ensures WellNested(flat, Tree(row.id, row.data, ts))
  {
    hide ChildRows, UnderSome;
  }

  lemma {:induction false} AttachedParent(flat: seq<Row>, row: Row, depth: nat, m: ChildrenMap,
                                          ts: seq<Tree>, left: ChildrenMap)
    requires DistinctIds(flat) && DepthIs(flat, row.id, depth) && row.id in m
    requires Attached(flat, ChildRows(flat, row.id), Without(m, row.id), ts, left)
    ensures AttachedOne(flat, row, m, Tree(row.id, row.data, ts), left)
  {
    hide ChildRows, Under, DepthIs, Attached, WellNested, ForestIds, Without;
    ParentNested(flat, row, Without(m, row.id), ts, left);
    forall id
      ensures multiset([row.id] + ForestIds(ts))[id] == if Under(flat, id, row.id) then 1 else 0
      ensures id in left <==> id in m && !Under(flat, id, row.id)
    {
      ParentCounts(flat, row, depth, m, ts, left, id);
    }
    assert Ids(Tree(row.id, row.data, ts)) == [row.id] + ForestIds(ts);
  }

  lemma {:induction false} AttachedLeaf(flat: seq<Row>, row: Row, depth: nat, m: ChildrenMap)
    requires DistinctIds(flat) && DepthIs(flat, row.id, depth) && row.id !in m
    requires Under(flat, row.id, row.id)
    requires forall id :: Under(flat, id, row.id) && ChildRows(flat, id) != [] ==> id in m
    ensures AttachedOne(flat, row, m, Leaf(row), m)
  {
    hide Under, DepthIs;
    forall id ensures Under(flat, id, row.id) <==> id == row.id {
      UnderChildren(flat, id, row.id, depth);
    }
    assert Ids(Leaf(row)) == [row.id];
  }

  // ---------------------------------------------------------------------------
  // Main results
  // ---------------------------------------------------------------------------

  lemma {:induction false} RootsLevel(flat: seq<Row>)
    requires DistinctIds(flat)
    ensures Level(flat, RootRows(flat, flat), 0)
    ensures forall id :: Rooted(flat, id) <==> UnderSome(flat, id, RootRows(flat, flat))
  {
    hide RootRows, IsRoot;
    var roots := RootRows(flat, flat);
    RootRowsMembers(flat, flat);
    RootRowsDistinct(flat, flat);
    forall i | 0 <= i < |roots| ensures DepthIs(flat, roots[i].id, 0) {
      assert roots[i] in roots;
    }
    forall id ensures Rooted(flat, id) <==> UnderSome(flat, id, roots) {
      if Rooted(flat, id) {
        var depth: nat :| DepthIs(flat, id, depth);
        RootAbove(flat, id, depth);
      }
      if UnderSome(flat, id, roots) {
        var i :| 0 <= i < |roots| && Under(flat, id, roots[i].id);
        var steps: nat :| Climbs(flat, id, roots[i].id, steps);
        ClimbDepth(flat, id, roots[i].id, steps, 0);
      }
    }
  }

  lemma {:induction false} RootAbove(flat: seq<Row>, id: string, depth: nat)
    requires DepthIs(flat, id, depth)
    ensures UnderSome(flat, id, RootRows(flat, flat))
    decreases depth
  {
    hide RootRows, IsRoot;
    var roots := RootRows(flat, flat);
    if depth == 0 {
      var k :| 0 <= k < |flat| && flat[k].id == id && IsRoot(flat, flat[k]);
      RootRowsMembers(flat, flat);
      assert flat[k] in roots;
      UnderSelf(flat, id);
    } else {
      var p :| ParentOf(flat, id, p) && DepthIs(flat, p, depth - 1);
      RootAbove(flat, p, depth - 1);
      var i :| 0 <= i < |roots| && Under(flat, p, roots[i].id);
      var steps: nat :| Climbs(flat, p, roots[i].id, steps);
      assert Climbs(flat, id, roots[i].id, steps + 1);
    }
  }

  /**
   * With distinct ids: the trees stand for the roots in input order, every node's children are exactly
   * the rows naming it in input order, and an id occurs once if its parent chain ends at a root and
   * not at all otherwise.
   */
  lemma {:induction false} ForestConserves(flat: seq<Row>, forest: seq<Tree>)
    requires DistinctIds(flat) && IsForest(flat, forest)
    ensures StandFor(forest, RootRows(flat, flat))
    ensures AllNested(flat, forest)
    ensures forall id :: multiset(ForestIds(forest))[id] == if Rooted(flat, id) then 1 else 0
  {
    hide Rooted, UnderSome, RootRows, WellNested, AttachAll;
    var m :| Groups(flat, flat, m) && forest == AttachAll(Leaves(RootRows(flat, flat)), m).0;
    RootsLevel(flat);
    GroupsHold(flat, m);
    AttachAllCorrect(flat, RootRows(flat, flat), 0, m);
  }

  lemma {:induction false} GroupsHold(flat: seq<Row>, m: ChildrenMap)
    requires Groups(flat, flat, m)
    ensures Holds(flat, m, RootRows(flat, flat))
  {
    hide ChildRows, RootRows, Climbs;
    var roots := RootRows(flat, flat);
    forall id | UnderSome(flat, id, roots) && ChildRows(flat, id) != [] ensures id in m {
      var i :| 0 <= i < |roots| && Under(flat, id, roots[i].id);
      var steps: nat :| Climbs(flat, id, roots[i].id, steps);
      ClimbLoaded(flat, id, roots[i].id, steps);
    }
  }

  lemma {:induction false} ClimbLoaded(flat: seq<Row>, id: string, top: string, steps: nat)
    requires Climbs(flat, id, top, steps)
    ensures Loaded(flat, id)
  {
  }

  // ---------------------------------------------------------------------------
  // Order and place
  // ---------------------------------------------------------------------------

  /** The trees are exactly the rows that name `id` as their parent, in input order. */
  ghost predicate ListsChildren(flat: seq<Row>, ts: seq<Tree>, id: string) {
    exists rows, places :: Picks(flat, Naming(id), rows, places) && StandFor(ts, rows)
  }

  /** The trees are exactly the rows that name no parent or one that is not there, in input order. */
  ghost predicate ListsRoots(flat: seq<Row>, ts: seq<Tree>) {
    exists rows, places :: Picks(flat, Parentless(flat), rows, places) && StandFor(ts, rows)
  }

  ghost function Naming(id: string): Row -> bool {
    (r: Row) => r.parent.Some? && r.parent.value == id
  }

  ghost function Parentless(flat: seq<Row>): Row -> bool {
    (r: Row) => r.parent.None? || forall i :: 0 <= i < |flat| ==> flat[i].id != r.parent.value
  }

  /** At every level, the children are the rows that name their parent, in input order. */
  ghost predicate NestedAsNamed(flat: seq<Row>, t: Tree) {
    ListsChildren(flat, t.children, t.id)
    && forall i :: 0 <= i < |t.children| ==> NestedAsNamed(flat, t.children[i])
  }

  lemma {:induction false} ChildRowsPicked(rows: seq<Row>, id: string) returns (places: seq<nat>)
    ensures Picks(rows, Naming(id), ChildRows(rows, id), places)
  {
    places := [];
    if rows != [] {
      var front, last := rows[..|rows| - 1], rows[|rows| - 1];
      places := ChildRowsPicked(front, id);
      PicksSnoc(front, Naming(id), ChildRows(front, id), places, last);
      assert rows == front + [last];
      if last.parent == Some(id) {
        places := places + [|front|];
      }
    }
  }

  lemma {:induction false} RootRowsPicked(flat: seq<Row>, rows: seq<Row>) returns (places: seq<nat>)
    ensures Picks(rows, Parentless(flat), RootRows(flat, rows), places)
  {
    places := [];
    if rows != [] {
      var front, last := rows[..|rows| - 1], rows[|rows| - 1];
      places := RootRowsPicked(flat, front);
      PicksSnoc(front, Parentless(flat), RootRows(flat, front), places, last);
      assert rows == front + [last];
      if IsRoot(flat, last) {
        places := places + [|front|];
      }
    }
  }

  lemma {:induction false} WellNestedAsNamed(flat: seq<Row>, t: Tree)
    requires WellNested(flat, t)
    ensures NestedAsNamed(flat, t)
    decreases t
  {
    hide ChildRows, Picks, StandFor;
    var places := ChildRowsPicked(flat, t.id);
    forall i | 0 <= i < |t.children| ensures NestedAsNamed(flat, t.children[i]) {
      WellNestedAsNamed(flat, t.children[i]);
    }
  }

  /** With distinct ids, roots and children stand where the rows put them, in input order. */
  lemma {:induction false} ForestAsNamed(flat: seq<Row>, forest: seq<Tree>)
    requires DistinctIds(flat) && IsForest(flat, forest)
    ensures ListsRoots(flat, forest)
    ensures forall i :: 0 <= i < |forest| ==> NestedAsNamed(flat, forest[i])
  {
    hide IsForest, Rooted, RootRows, WellNested, NestedAsNamed, Picks, StandFor, ForestIds;
    ForestConserves(flat, forest);
    var places := RootRowsPicked(flat, flat);
    forall i | 0 <= i < |forest| ensures NestedAsNamed(flat, forest[i]) {
      WellNestedAsNamed(flat, forest[i]);
    }
  }

  // ---------------------------------------------------------------------------
  // Acyclic input
  // ---------------------------------------------------------------------------

  /** No row is its own ancestor. */
  ghost predicate Acyclic(flat: seq<Row>) {
    forall id, steps: nat :: steps > 0 ==> !Climbs(flat, id, id, steps)
  }

  /** Each element names the next as its parent. */
  ghost predicate Chain(flat: seq<Row>, ids: seq<string>) {
    forall i :: 0 <= i < |ids| - 1 ==> ParentOf(flat, ids[i], ids[i + 1])
  }

  lemma {:induction false} EndlessChain(flat: seq<Row>, id: string, length: nat) returns (ids: seq<string>)
    requires DistinctIds(flat) && Loaded(flat, id) && !Rooted(flat, id)
    ensures |ids| == length + 1 && ids[0] == id && Chain(flat, ids)
    ensures forall x :: x in ids ==> Loaded(flat, x)
    decreases length
  {
    ids := [id];
    if length > 0 {
      var k :| 0 <= k < |flat| && flat[k].id == id;
      assert !DepthIs(flat, id, 0);
      assert !IsRoot(flat, flat[k]);
      var p := flat[k].parent.value;
      assert ParentOf(flat, id, p);
      if Rooted(flat, p) {
        var depth: nat :| DepthIs(flat, p, depth);
        assert DepthIs(flat, id, depth + 1);
        assert false;
      }
      var rest := EndlessChain(flat, p, length - 1);
      ids := [id] + rest;
    }
  }

  lemma {:induction false} ChainClimbs(flat: seq<Row>, ids: seq<string>, i: nat, j: nat)
    requires Chain(flat, ids) && i <= j < |ids| && Loaded(flat, ids[j])
    ensures Climbs(flat, ids[i], ids[j], j - i)
    decreases j - i
  {
    hide ParentOf, Loaded;
    if i < j {
      ChainClimbs(flat, ids, i + 1, j);
      assert ParentOf(flat, ids[i], ids[i + 1]);
    }
  }

  ghost function IdSet(flat: seq<Row>): set<string> {
    if flat == [] then {} else {flat[0].id} + IdSet(flat[1..])
  }

  lemma {:induction false} IdSetLoaded(flat: seq<Row>)
    ensures |IdSet(flat)| <= |flat| && forall id :: id in IdSet(flat) <==> Loaded(flat, id)
  {
    if flat != [] {
      IdSetLoaded(flat[1..]);
      forall id ensures Loaded(flat, id) <==> id == flat[0].id || Loaded(flat[1..], id) {
        if Loaded(flat, id) && id != flat[0].id {
          var k :| 0 <= k < |flat| && flat[k].id == id;
          assert flat[1..][k - 1] == flat[k];
        }
        if Loaded(flat[1..], id) {
          var k :| 0 <= k < |flat[1..]| && flat[1..][k].id == id;
          assert flat[k + 1] == flat[1..][k];
        }
      }
    }
  }

  /** More elements than the set they come from: two of them are equal. */
  lemma {:induction false} Pigeonhole(ids: seq<string>, s: set<string>) returns (i: nat, j: nat)
    requires |ids| > |s| && forall x :: x in ids ==> x in s
    ensures i < j < |ids| && ids[i] == ids[j]
    decreases |s|
  {
    var last := ids[|ids| - 1];
    var front := ids[..|ids| - 1];
    if last in front {
      var k :| 0 <= k < |front| && front[k] == last;
      i, j := k, |ids| - 1;
    } else {
      assert last in s;
      forall x | x in front ensures x in s - {last} {
        assert x in ids;
      }
      i, j := Pigeonhole(front, s - {last});
    }
  }

  lemma {:induction false} AcyclicIsRooted(flat: seq<Row>, id: string)
    requires DistinctIds(flat) && Acyclic(flat) && Loaded(flat, id)
    ensures Rooted(flat, id)
  {
    hide Climbs, DepthIs, Loaded;
    if !Rooted(flat, id) {
      var ids := EndlessChain(flat, id, |flat|);
      IdSetLoaded(flat);
      var i, j := Pigeonhole(ids, IdSet(flat));
      ChainClimbs(flat, ids, i, j);
      assert false;
    }
  }

  function IdsOf(flat: seq<Row>): seq<string> {
    if flat == [] then [] else [flat[0].id] + IdsOf(flat[1..])
  }

  lemma {:induction false} IdsOfCounts(flat: seq<Row>, id: string)
    requires DistinctIds(flat)
    ensures multiset(IdsOf(flat))[id] == if Loaded(flat, id) then 1 else 0
  {
    if flat != [] {
      IdsOfCounts(flat[1..], id);
      IdSetLoaded(flat);
      IdSetLoaded(flat[1..]);
      if Loaded(flat[1..], id) {
        var k :| 0 <= k < |flat[1..]| && flat[1..][k].id == id;
        assert flat[k + 1] == flat[1..][k];
      }
    }
  }

  /** Every row is exported exactly once if and only if no row is its own ancestor. */
  lemma {:induction false} NothingLostExactly(flat: seq<Row>, forest: seq<Tree>)
    requires DistinctIds(flat) && IsForest(flat, forest)
    ensures multiset(ForestIds(forest)) == multiset(IdsOf(flat)) <==> Acyclic(flat)
  {
    hide IsForest, Climbs, DepthIs, AllNested, StandFor, Loaded, ForestIds, IdsOf;
    ForestConserves(flat, forest);
    if Acyclic(flat) {
      forall id ensures multiset(ForestIds(forest))[id] == multiset(IdsOf(flat))[id] {
        IdsOfCounts(flat, id);
        if Loaded(flat, id) {
          AcyclicIsRooted(flat, id);
        } else if Rooted(flat, id) {
          var depth: nat :| DepthIs(flat, id, depth);
          DepthLoaded(flat, id, depth);
          assert false;
        }
      }
    } else {
      var id, steps: nat :| steps > 0 && Climbs(flat, id, id, steps);
      ClimbLoaded(flat, id, id, steps);
      IdsOfCounts(flat, id);
      if Rooted(flat, id) {
        var depth: nat :| DepthIs(flat, id, depth);
        ClimbDepth(flat, id, id, steps, depth);
        DepthUnique(flat, id, depth, depth + steps);
        assert false;
      }
    }
  }
}
