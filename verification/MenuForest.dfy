/**
 There is one forest for the rows, and every row that has a way up to a root is in it once, under
 its own parent.
 */
module MenuForest {
  import opened Common
  import opened Schema
  import opened MenuTree
  import MenuDepth

  // ---- uniqueness ----

  ghost predicate OwnRows(rows: Rows, nodes: seq<Node>) {
    forall i :: 0 <= i < |nodes| ==> nodes[i].id in rows && nodes[i].row == rows[nodes[i].id]
  }

  lemma ListsTail(nodes: seq<Node>, ids: set<Uuid>)
    requires nodes != [] && Lists(nodes, ids)
    ensures Lists(nodes[1..], ids - {nodes[0].id})
  {
  }

  /** The first node of an ordered listing is the least of its ids. */
  lemma SameFirst(rows: Rows, a: seq<Node>, b: seq<Node>, ids: set<Uuid>)
    requires Lists(a, ids) && Lists(b, ids) && InOrder(a) && InOrder(b) && OwnRows(rows, a) && OwnRows(rows, b)
    requires a != [] && b != []
    ensures a[0].id == b[0].id
  {
  }

  lemma EmptyListing(nodes: seq<Node>, ids: set<Uuid>)
    requires Lists(nodes, ids)
    ensures nodes == [] <==> ids == {}
  {
    assert nodes != [] ==> nodes[0].id in ids;
  }

  /** Two ordered listings of the same ids name them in the same order. */
  lemma {:induction false} SameOrder(rows: Rows, a: seq<Node>, b: seq<Node>, ids: set<Uuid>)
    requires Lists(a, ids) && Lists(b, ids) && InOrder(a) && InOrder(b) && OwnRows(rows, a) && OwnRows(rows, b)
    ensures |a| == |b| && forall i :: 0 <= i < |a| ==> a[i].id == b[i].id
    decreases |a|
  {
    EmptyListing(a, ids);
    EmptyListing(b, ids);
    if a != [] {
      SameFirst(rows, a, b, ids);
      ListsTail(a, ids);
      ListsTail(b, ids);
      SameOrder(rows, a[1..], b[1..], ids - {a[0].id});
      forall i | 0 <= i < |a| ensures a[i].id == b[i].id {
        assert i > 0 ==> a[i] == a[1..][i - 1] && b[i] == b[1..][i - 1];
      }
    }
  }

  lemma {:induction false} TreeIsUnique(rows: Rows, a: Node, b: Node)
    requires IsTree(rows, a, true) && IsTree(rows, b, true) && a.id == b.id
    ensures a == b
    decreases a
  {
    TreesAreUnique(rows, a.children, b.children, Kids(rows, a.id));
  }

  lemma {:induction false} TreesAreUnique(rows: Rows, a: seq<Node>, b: seq<Node>, ids: set<Uuid>)
    requires AreTrees(rows, a, ids, true) && AreTrees(rows, b, ids, true)
    ensures a == b
    decreases a
  {
    TreesOwnRows(rows, a, ids);
    TreesOwnRows(rows, b, ids);
    SameOrder(rows, a, b, ids);
    forall i | 0 <= i < |a| ensures a[i] == b[i] {
      TreeIsUnique(rows, a[i], b[i]);
    }
  }

  lemma TreesOwnRows(rows: Rows, a: seq<Node>, ids: set<Uuid>)
    requires AreTrees(rows, a, ids, true)
    ensures OwnRows(rows, a)
  {
  }

  /** Every iteration order of the hash maps gives the same forest. */
  lemma ForestIsUnique(rows: Rows, f: seq<Node>, g: seq<Node>)
    requires IsForest(rows, f) && IsForest(rows, g)
    ensures f == g
  {
    TreesAreUnique(rows, f, g, Roots(rows));
  }

  // ---- how often a row appears ----

  function Count(node: Node, x: Uuid): nat {
    (if node.id == x then 1 else 0) + CountAll(node.children, x)
  }

  function CountAll(nodes: seq<Node>, x: Uuid): nat {
    if nodes == [] then 0 else Count(nodes[0], x) + CountAll(nodes[1..], x)
  }

  ghost function Once(x: Uuid, ids: set<Uuid>): nat {
    if x in ids then 1 else 0
  }

  lemma {:induction false} CountIs(rows: Rows, node: Node, d: nat, x: Uuid)
    requires IsTree(rows, node, true) && AtLevel(rows, node.id, d)
    ensures Count(node, x) == Once(x, Desc(rows, node.id))
    decreases node
  {
    hide Desc, DescAll;
    KidsAreLower(rows, node, d);
    CountAllIs(rows, node.children, d + 1, x);
    DescOfNode(rows, node.id, node.children);
    NotAmongKids(rows, node, d);
  }

  lemma KidsAreLower(rows: Rows, node: Node, d: nat)
    requires IsTree(rows, node, true) && AtLevel(rows, node.id, d)
    ensures Level(rows, node.children, d + 1)
  {
  }

  /** Trees of distinct rows of one level. */
  ghost predicate Level(rows: Rows, nodes: seq<Node>, d: nat) {
    && DistinctIds(nodes) && AllAtLevel(rows, nodes, d)
    && forall i :: 0 <= i < |nodes| ==> IsTree(rows, nodes[i], true)
  }

  lemma NotAmongKids(rows: Rows, node: Node, d: nat)
    requires AtLevel(rows, node.id, d) && Level(rows, node.children, d + 1)
    ensures node.id !in DescAll(rows, node.children)
  {
    DescAllIs(rows, node.children, node.id);
    forall i | 0 <= i < |node.children| ensures node.id !in Desc(rows, node.children[i].id) {
      NotBelowLower(rows, node.id, node.children[i].id, d);
    }
  }

  lemma LevelTail(rows: Rows, nodes: seq<Node>, d: nat)
    requires nodes != [] && Level(rows, nodes, d)
    ensures Level(rows, nodes[1..], d)
  {
  }

  lemma {:induction false} CountAllIs(rows: Rows, nodes: seq<Node>, d: nat, x: Uuid)
    requires Level(rows, nodes, d)
    ensures CountAll(nodes, x) == Once(x, DescAll(rows, nodes))
    decreases nodes
  {
    hide Desc, DescAll;
    if nodes == [] {
      NothingBelow(rows);
    } else {
      FirstOfLevel(rows, nodes, d);
      CountIs(rows, nodes[0], d, x);
      LevelTail(rows, nodes, d);
      CountAllIs(rows, nodes[1..], d, x);
      DescAllHead(rows, nodes, d, x);
    }
  }

  lemma FirstOfLevel(rows: Rows, nodes: seq<Node>, d: nat)
    requires nodes != [] && Level(rows, nodes, d)
    ensures IsTree(rows, nodes[0], true) && AtLevel(rows, nodes[0].id, d)
  {
  }

  lemma NothingBelow(rows: Rows)
    ensures DescAll(rows, []) == {}
  {
  }

  /** The first subtree and the others are disjoint parts of the level. */
  lemma DescAllHead(rows: Rows, nodes: seq<Node>, d: nat, x: Uuid)
    requires nodes != [] && Level(rows, nodes, d)
    ensures Once(x, DescAll(rows, nodes)) == Once(x, Desc(rows, nodes[0].id)) + Once(x, DescAll(rows, nodes[1..]))
  {
    hide Desc, DescAll, IsTree;
    DescAllIs(rows, nodes, x);
    DescAllIs(rows, nodes[1..], x);
    if i :| 0 <= i < |nodes| && x in Desc(rows, nodes[i].id) {
      assert i > 0 ==> nodes[1..][i - 1] == nodes[i];
    }
    if i :| 0 <= i < |nodes[1..]| && x in Desc(rows, nodes[1..][i].id) {
      assert nodes[1..][i] == nodes[i + 1];
      DescDisjoint(rows, nodes[0].id, nodes[i + 1].id, d);
    }
  }

  /** A way up to a root. */
  ghost predicate HasRoot(rows: Rows, x: Uuid) {
    exists n: nat :: AtLevel(rows, x, n)
  }

  lemma {:induction false} RootAbove(rows: Rows, x: Uuid, n: nat) returns (r: Uuid)
    requires AtLevel(rows, x, n)
    ensures r in Roots(rows) && Under(rows, x, r, n)
    decreases n
  {
    r := x;
    if n > 0 {
      r := RootAbove(rows, ParentIn(rows, x).value, n - 1);
    }
  }

  /** Every row with a way up to a root is in the forest exactly once; a row on a cycle is not in it at all. */
  lemma RowsAppearOnce(rows: Rows, forest: seq<Node>, x: Uuid)
    requires IsForest(rows, forest) && x in rows
    ensures CountAll(forest, x) == if HasRoot(rows, x) then 1 else 0
  {
    hide Desc, DescAll, IsTree;
    RootsAreLevel(rows, forest);
    CountAllIs(rows, forest, 0, x);
    DescAllIs(rows, forest, x);
    if HasRoot(rows, x) {
      var n: nat :| AtLevel(rows, x, n);
      var r := RootAbove(rows, x, n);
      InDesc(rows, x, r, n);
      var i :| 0 <= i < |forest| && forest[i].id == r;
    }
    if i :| 0 <= i < |forest| && x in Desc(rows, forest[i].id) {
      FromDesc(rows, x, forest[i].id);
    }
  }

  lemma InDesc(rows: Rows, x: Uuid, r: Uuid, n: nat)
    requires Under(rows, x, r, n)
    ensures x in Desc(rows, r)
  {
  }

  lemma FromDesc(rows: Rows, x: Uuid, r: Uuid)
    requires x in Desc(rows, r) && AtLevel(rows, r, 0)
    ensures HasRoot(rows, x)
  {
    var n: nat :| Under(rows, x, r, n);
    UnderLevel(rows, x, r, n, 0);
  }

  lemma RootsAreLevel(rows: Rows, forest: seq<Node>)
    requires IsForest(rows, forest)
    ensures Level(rows, forest, 0)
  {
  }

  /** Rows taken from a shallow menu table all have a way up. */
  lemma ShallowRowsHaveRoots(menus: map<Uuid, Menu>, rows: Rows, x: Uuid)
    requires MenuDepth.MenusOk(menus) && x in rows && forall m :: m in rows ==> m in menus && rows[m] == menus[m]
    ensures HasRoot(rows, x)
  {
    assert MenuDepth.Shallow(menus, x);
    if ParentIn(rows, x).None? {
      assert AtLevel(rows, x, 0);
    } else {
      var p := ParentIn(rows, x).value;
      if ParentIn(rows, p).None? {
        assert AtLevel(rows, p, 0);
        assert AtLevel(rows, x, 1);
      } else {
        var g := ParentIn(rows, p).value;
        assert AtLevel(rows, g, 0);
        assert AtLevel(rows, p, 1);
        assert AtLevel(rows, x, 2);
      }
    }
  }

  /** A node anywhere in the forest. */
  predicate Occurs(node: Node, nodes: seq<Node>)
    decreases nodes
  {
    exists i :: 0 <= i < |nodes| && OccursIn(node, nodes[i])
  }

  predicate OccursIn(node: Node, tree: Node)
    decreases tree
  {
    tree == node || Occurs(node, tree.children)
  }

  lemma {:induction false} OccursIsTree(rows: Rows, node: Node, nodes: seq<Node>)
    requires Occurs(node, nodes) && forall i :: 0 <= i < |nodes| ==> IsTree(rows, nodes[i], true)
    ensures IsTree(rows, node, true)
    decreases nodes
  {
    var i :| 0 <= i < |nodes| && OccursIn(node, nodes[i]);
    if nodes[i] != node {
      OccursIsTree(rows, node, nodes[i].children);
    }
  }

  /** Wherever a node stands in the forest, the node above it is its own row's parent, and roots have none among the rows. */
  lemma UnderOwnParent(rows: Rows, forest: seq<Node>, node: Node, i: nat)
    requires IsForest(rows, forest)
    ensures Occurs(node, forest) && i < |node.children| ==> node.children[i].row.parent == Some(node.id)
    ensures i < |forest| ==> forest[i].id in rows && ParentIn(rows, forest[i].id).None?
  {
    if Occurs(node, forest) {
      OccursIsTree(rows, node, forest);
      if i < |node.children| {
        assert IsTree(rows, node.children[i], true);
      }
    }
  }

  /** At every level of the forest nodes come by sequence, and by id where the sequence is the same. */
  lemma LevelsInOrder(rows: Rows, forest: seq<Node>, node: Node, i: nat, j: nat)
    requires IsForest(rows, forest) && i < j
    ensures j < |forest| ==>
      forest[i].row.sequence < forest[j].row.sequence
      || (forest[i].row.sequence == forest[j].row.sequence && forest[i].id < forest[j].id)
    ensures Occurs(node, forest) && j < |node.children| ==>
      node.children[i].row.sequence < node.children[j].row.sequence
      || (node.children[i].row.sequence == node.children[j].row.sequence && node.children[i].id < node.children[j].id)
  {
    if j < |forest| {
      assert KeyLess(forest[i], forest[j]);
    }
    if Occurs(node, forest) {
      OccursIsTree(rows, node, forest);
      assert j < |node.children| ==> KeyLess(node.children[i], node.children[j]);
    }
  }
}
