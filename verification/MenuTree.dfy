/**
 Building the menu forest: the rows are grouped by parent in whatever order the hash map yields
 them, attached below the roots, and every level is sorted.
 */
module MenuTree {
  import opened Common
  import opened Schema
  import Sorting

  type Rows = map<Uuid, Menu>

  datatype Node = Node(id: Uuid, row: Menu, children: seq<Node>)

  /** The parent, when it is among the rows; a row whose parent is not is a root. */
  function ParentIn(rows: Rows, id: Uuid): Option<Uuid>
    requires id in rows
  {
    if rows[id].parent.Some? && rows[id].parent.value in rows then rows[id].parent else None
  }

  function Kids(rows: Rows, p: Uuid): set<Uuid> {
    set c | c in rows && ParentIn(rows, c) == Some(p)
  }

  function Roots(rows: Rows): set<Uuid> {
    set c | c in rows && ParentIn(rows, c) == None
  }

  function Leaf(rows: Rows, id: Uuid): Node
    requires id in rows
  {
    Node(id, rows[id], [])
  }

  // ---- what a forest is ----

  /** By (sequence, id). */
  predicate KeyLess(a: Node, b: Node) {
    a.row.sequence < b.row.sequence || (a.row.sequence == b.row.sequence && a.id < b.id)
  }

  ghost predicate InOrder(nodes: seq<Node>) {
    forall i, j :: 0 <= i < j < |nodes| ==> KeyLess(nodes[i], nodes[j])
  }

  ghost predicate DistinctIds(nodes: seq<Node>) {
    forall i, j :: 0 <= i < j < |nodes| ==> nodes[i].id != nodes[j].id
  }

  /** The nodes are those of the ids, each once. */
  ghost predicate Lists(nodes: seq<Node>, ids: set<Uuid>) {
    && DistinctIds(nodes)
    && (forall i :: 0 <= i < |nodes| ==> nodes[i].id in ids)
    && (forall id :: id in ids ==> exists i :: 0 <= i < |nodes| && nodes[i].id == id)
  }

  /** The node carries its row, and below it are trees for exactly its children. */
  ghost predicate IsTree(rows: Rows, node: Node, sorted: bool)
    decreases node
  {
    && node.id in rows && node.row == rows[node.id]
    && Lists(node.children, Kids(rows, node.id)) && (sorted ==> InOrder(node.children))
    && forall i :: 0 <= i < |node.children| ==> IsTree(rows, node.children[i], sorted)
  }

  ghost predicate AreTrees(rows: Rows, nodes: seq<Node>, ids: set<Uuid>, sorted: bool) {
    && Lists(nodes, ids) && (sorted ==> InOrder(nodes))
    && forall i :: 0 <= i < |nodes| ==> IsTree(rows, nodes[i], sorted)
  }

  /** The forest of the rows. */
  ghost predicate IsForest(rows: Rows, forest: seq<Node>) {
    AreTrees(rows, forest, Roots(rows), true)
  }

  // ---- ancestry ----

  /** n steps up from x, within the rows, is y. */
  ghost predicate Under(rows: Rows, x: Uuid, y: Uuid, n: nat)
    decreases n
  {
    x in rows && if n == 0 then x == y else ParentIn(rows, x).Some? && Under(rows, ParentIn(rows, x).value, y, n - 1)
  }

  /** n steps up from x is a root. */
  ghost predicate AtLevel(rows: Rows, x: Uuid, n: nat)
    decreases n
  {
    x in rows && if n == 0 then ParentIn(rows, x).None? else ParentIn(rows, x).Some? && AtLevel(rows, ParentIn(rows, x).value, n - 1)
  }

  ghost predicate Below(rows: Rows, x: Uuid, y: Uuid) {
    exists n: nat :: Under(rows, x, y, n)
  }

  /** The row and everything below it. */
  ghost function Desc(rows: Rows, y: Uuid): set<Uuid> {
    set x | x in rows && Below(rows, x, y)
  }

  ghost function DescAll(rows: Rows, nodes: seq<Node>): set<Uuid> {
    if nodes == [] then {} else DescAll(rows, nodes[..|nodes| - 1]) + Desc(rows, nodes[|nodes| - 1].id)
  }

  lemma {:induction false} UnderLevel(rows: Rows, x: Uuid, y: Uuid, n: nat, d: nat)
    requires Under(rows, x, y, n) && AtLevel(rows, y, d)
    ensures AtLevel(rows, x, n + d)
    decreases n
  {
    if n > 0 {
      UnderLevel(rows, ParentIn(rows, x).value, y, n - 1, d);
    }
  }

  lemma {:induction false} LevelIsUnique(rows: Rows, x: Uuid, d: nat, e: nat)
    requires AtLevel(rows, x, d) && AtLevel(rows, x, e)
    ensures d == e
    decreases d
  {
    if d > 0 && e > 0 {
      LevelIsUnique(rows, ParentIn(rows, x).value, d - 1, e - 1);
    }
  }

  lemma {:induction false} UnderIsUnique(rows: Rows, x: Uuid, y: Uuid, z: Uuid, n: nat)
    requires Under(rows, x, y, n) && Under(rows, x, z, n)
    ensures y == z
    decreases n
  {
    if n > 0 {
      UnderIsUnique(rows, ParentIn(rows, x).value, y, z, n - 1);
    }
  }

  /** Two different rows of one level have nothing below both of them. */
  lemma DescDisjoint(rows: Rows, y: Uuid, z: Uuid, d: nat)
    requires AtLevel(rows, y, d) && AtLevel(rows, z, d) && y != z
    ensures Desc(rows, y) !! Desc(rows, z)
  {
    forall x | x in Desc(rows, y) && x in Desc(rows, z) ensures false {
      MeetBelow(rows, x, y, z, d);
    }
  }

  lemma MeetBelow(rows: Rows, x: Uuid, y: Uuid, z: Uuid, d: nat)
    requires AtLevel(rows, y, d) && AtLevel(rows, z, d) && Below(rows, x, y) && Below(rows, x, z)
    ensures y == z
  {
    var n: nat :| Under(rows, x, y, n);
    var m: nat :| Under(rows, x, z, m);
    UnderLevel(rows, x, y, n, d);
    UnderLevel(rows, x, z, m, d);
    LevelIsUnique(rows, x, n + d, m + d);
    UnderIsUnique(rows, x, y, z, n);
  }

  /** The last step up to y is from a child of y. */
  lemma {:induction false} LastStep(rows: Rows, x: Uuid, y: Uuid, n: nat) returns (c: Uuid)
    requires Under(rows, x, y, n) && n > 0 && y in rows
    ensures c in Kids(rows, y) && Under(rows, x, c, n - 1)
    decreases n
  {
    if n == 1 {
      c := x;
    } else {
      c := LastStep(rows, ParentIn(rows, x).value, y, n - 1);
    }
  }

  lemma {:induction false} OneMoreStep(rows: Rows, x: Uuid, c: Uuid, y: Uuid, n: nat)
    requires Under(rows, x, c, n) && c in Kids(rows, y) && y in rows
    ensures Under(rows, x, y, n + 1)
    decreases n
  {
    if n > 0 {
      OneMoreStep(rows, ParentIn(rows, x).value, c, y, n - 1);
    } else {
      assert Under(rows, y, y, 0);
    }
  }

  /** Everything below y is y itself, or below one of its children. */
  lemma DescSplits(rows: Rows, y: Uuid, x: Uuid)
    requires y in rows
    ensures x in Desc(rows, y) <==> x == y || exists c :: c in Kids(rows, y) && x in Desc(rows, c)
  {
    assert Under(rows, y, y, 0);
    if x in Desc(rows, y) && x != y {
      var n: nat :| Under(rows, x, y, n);
      var c := LastStep(rows, x, y, n);
      assert x in Desc(rows, c);
    }
    if c :| c in Kids(rows, y) && x in Desc(rows, c) {
      var n: nat :| Under(rows, x, c, n);
      OneMoreStep(rows, x, c, y, n);
    }
  }

  lemma {:induction false} DescAllIs(rows: Rows, nodes: seq<Node>, x: Uuid)
    ensures x in DescAll(rows, nodes) <==> exists i :: 0 <= i < |nodes| && x in Desc(rows, nodes[i].id)
  {
    if nodes != [] {
      var n := |nodes| - 1;
      DescAllIs(rows, nodes[..n], x);
      if i :| 0 <= i < |nodes| && x in Desc(rows, nodes[i].id) {
        assert i == n || nodes[..n][i] == nodes[i];
      }
    }
  }

  /** With the children listed, the row's subtree is the row and its children's subtrees. */
  lemma DescOfNode(rows: Rows, y: Uuid, kids: seq<Node>)
    requires y in rows && Lists(kids, Kids(rows, y))
    ensures Desc(rows, y) == {y} + DescAll(rows, kids)
  {
    forall x ensures x in Desc(rows, y) <==> x in {y} + DescAll(rows, kids) {
      DescSplits(rows, y, x);
      DescAllIs(rows, kids, x);
      if c :| c in Kids(rows, y) && x in Desc(rows, c) {
        var i :| 0 <= i < |kids| && kids[i].id == c;
      }
    }
  }

  // ---- grouping ----

  /** The rows handled so far, as leaves: the roots, and the children under each parent. */
  ghost predicate Grouped(rows: Rows, handled: set<Uuid>, roots: seq<Node>, children: map<Uuid, seq<Node>>) {
    && Bundle(rows, roots, Roots(rows) * handled)
    && forall p :: Entry(rows, children, p, Kids(rows, p) * handled)
  }

  ghost predicate Bundle(rows: Rows, nodes: seq<Node>, ids: set<Uuid>) {
    Lists(nodes, ids) && forall i :: 0 <= i < |nodes| ==> nodes[i].id in rows && nodes[i] == Leaf(rows, nodes[i].id)
  }

  /** The map holds the leaves of the ids under p, and no entry when there are none. */
  ghost predicate Entry(rows: Rows, children: map<Uuid, seq<Node>>, p: Uuid, ids: set<Uuid>) {
    (p in children <==> ids != {}) && (p in children ==> Bundle(rows, children[p], ids))
  }

  lemma BundleGrows(rows: Rows, nodes: seq<Node>, ids: set<Uuid>, id: Uuid)
    requires Bundle(rows, nodes, ids) && id in rows && id !in ids
    ensures Bundle(rows, nodes + [Leaf(rows, id)], ids + {id})
  {
    var more := nodes + [Leaf(rows, id)];
    forall x | x in ids + {id} ensures exists i :: 0 <= i < |more| && more[i].id == x {
      if x == id {
        assert more[|nodes|].id == id;
      } else {
        var i :| 0 <= i < |nodes| && nodes[i].id == x;
        assert more[i].id == x;
      }
    }
  }

  function Pushed(children: map<Uuid, seq<Node>>, p: Uuid, node: Node): map<Uuid, seq<Node>> {
    children[p := (if p in children then children[p] else []) + [node]]
  }

  lemma GroupedNext(rows: Rows, handled: set<Uuid>, roots: seq<Node>, children: map<Uuid, seq<Node>>, id: Uuid)
    requires Grouped(rows, handled, roots, children) && id in rows && id !in handled
    ensures var parent := ParentIn(rows, id);
      if parent.Some? then Grouped(rows, handled + {id}, roots, Pushed(children, parent.value, Leaf(rows, id)))
      else Grouped(rows, handled + {id}, roots + [Leaf(rows, id)], children)
  {
    var parent, more := ParentIn(rows, id), handled + {id};
    if parent.None? {
      BundleGrows(rows, roots, Roots(rows) * handled, id);
      assert Roots(rows) * more == Roots(rows) * handled + {id};
      forall p ensures Entry(rows, children, p, Kids(rows, p) * more) {
        assert Kids(rows, p) * more == Kids(rows, p) * handled;
      }
    } else {
      assert Roots(rows) * more == Roots(rows) * handled;
      forall p ensures Entry(rows, Pushed(children, parent.value, Leaf(rows, id)), p, Kids(rows, p) * more) {
        EntryNext(rows, handled, children, id, p);
      }
    }
  }

  lemma EntryNext(rows: Rows, handled: set<Uuid>, children: map<Uuid, seq<Node>>, id: Uuid, p: Uuid)
    requires id in rows && id !in handled && ParentIn(rows, id).Some? && Entry(rows, children, p, Kids(rows, p) * handled)
    ensures Entry(rows, Pushed(children, ParentIn(rows, id).value, Leaf(rows, id)), p, Kids(rows, p) * (handled + {id}))
  {
    if p == ParentIn(rows, id).value {
      assert Kids(rows, p) * (handled + {id}) == Kids(rows, p) * handled + {id};
      if p !in children {
        assert Bundle(rows, [], {});
      }
      BundleGrows(rows, if p in children then children[p] else [], Kids(rows, p) * handled, id);
    } else {
      assert Kids(rows, p) * (handled + {id}) == Kids(rows, p) * handled;
    }
  }

  /** The first pass, over the hash map in any order. */
  method Group(rows: Rows) returns (roots: seq<Node>, children: map<Uuid, seq<Node>>)
    ensures Grouped(rows, rows.Keys, roots, children)
  {
    var left := rows.Keys;
    roots, children := [], map[];
    while left != {}
      invariant left <= rows.Keys && Grouped(rows, rows.Keys - left, roots, children)
      decreases left
    {
      var id :| id in left;
      GroupedNext(rows, rows.Keys - left, roots, children, id);
      assert rows.Keys - (left - {id}) == rows.Keys - left + {id};
      hide Grouped;
      var parent := ParentIn(rows, id);
      if parent.Some? {
        children := Pushed(children, parent.value, Leaf(rows, id));
      } else {
        roots := roots + [Leaf(rows, id)];
      }
      left := left - {id};
    }
    assert rows.Keys - left == rows.Keys;
  }

  // ---- attaching ----

  /** Below the row nothing has been taken out of the map yet. */
  ghost predicate Intact(rows: Rows, children: map<Uuid, seq<Node>>, ids: set<Uuid>) {
    forall p :: p in ids ==> Entry(rows, children, p, Kids(rows, p))
  }

  lemma KidsLevel(rows: Rows, p: Uuid, d: nat, kids: seq<Node>)
    requires AtLevel(rows, p, d) && Bundle(rows, kids, Kids(rows, p))
    ensures AllAtLevel(rows, kids, d + 1)
  {
  }

  ghost predicate AllAtLevel(rows: Rows, nodes: seq<Node>, d: nat) {
    forall i :: 0 <= i < |nodes| ==> AtLevel(rows, nodes[i].id, d)
  }

  /** No row is below its own children. */
  lemma NotBelowKids(rows: Rows, p: Uuid, d: nat, kids: seq<Node>)
    requires AtLevel(rows, p, d) && Bundle(rows, kids, Kids(rows, p))
    ensures p !in DescAll(rows, kids)
  {
    DescAllIs(rows, kids, p);
    forall i | 0 <= i < |kids| ensures p !in Desc(rows, kids[i].id) {
      KidsLevel(rows, p, d, kids);
      NotBelowLower(rows, p, kids[i].id, d);
    }
  }

  lemma NotBelowLower(rows: Rows, p: Uuid, c: Uuid, d: nat)
    requires AtLevel(rows, p, d) && AtLevel(rows, c, d + 1)
    ensures p !in Desc(rows, c)
  {
    if p in Desc(rows, c) {
      var n: nat :| Under(rows, p, c, n);
      UnderLevel(rows, p, c, n, d + 1);
      LevelIsUnique(rows, p, d, n + d + 1);
    }
  }

  /** The subtrees of a level's earlier nodes and of a later one share nothing. */
  lemma LevelDisjoint(rows: Rows, nodes: seq<Node>, d: nat, i: nat)
    requires AllAtLevel(rows, nodes, d) && DistinctIds(nodes) && i < |nodes|
    ensures DescAll(rows, nodes[..i]) !! Desc(rows, nodes[i].id)
  {
    forall x | x in DescAll(rows, nodes[..i]) ensures x !in Desc(rows, nodes[i].id) {
      DescAllIs(rows, nodes[..i], x);
      var j :| 0 <= j < i && x in Desc(rows, nodes[..i][j].id);
      DescDisjoint(rows, nodes[j].id, nodes[i].id, d);
    }
  }

  lemma IntactLess(rows: Rows, children: map<Uuid, seq<Node>>, ids: set<Uuid>, gone: set<Uuid>, fewer: set<Uuid>)
    requires Intact(rows, children, ids) && fewer <= ids && fewer !! gone
    ensures Intact(rows, children - gone, fewer)
  {
  }

  lemma RemovedTwice(children: map<Uuid, seq<Node>>, a: set<Uuid>, b: set<Uuid>)
    ensures children - a - b == children - (a + b)
  {
  }

  lemma FewerKeys(children: map<Uuid, seq<Node>>, gone: set<Uuid>)
    ensures |(children - gone).Keys| <= |children.Keys|
    ensures gone * children.Keys != {} ==> |(children - gone).Keys| < |children.Keys|
  {
  }

  lemma DescAllPrefix(rows: Rows, nodes: seq<Node>, i: nat)
    requires i < |nodes|
    ensures DescAll(rows, nodes[..i + 1]) == DescAll(rows, nodes[..i]) + Desc(rows, nodes[i].id)
  {
    assert nodes[..i + 1][..i] == nodes[..i];
  }

  lemma DescInAll(rows: Rows, nodes: seq<Node>, i: nat)
    requires i < |nodes|
    ensures Desc(rows, nodes[i].id) <= DescAll(rows, nodes)
  {
  }

  /** The tree of one row: its entry leaves the map, and its children are attached in turn. */
  method Attach(ghost rows: Rows, node: Node, children: map<Uuid, seq<Node>>, ghost d: nat)
    returns (tree: Node, rest: map<Uuid, seq<Node>>)
    requires AtLevel(rows, node.id, d) && node == Leaf(rows, node.id)
    requires Intact(rows, children, Desc(rows, node.id))
    ensures tree.id == node.id && IsTree(rows, tree, false) && rest == children - Desc(rows, node.id)
    decreases |children.Keys|, 0
  {
    hide Desc, DescAll, Intact, Bundle, AllAtLevel;
    NodeEntry(rows, children, node.id);
    tree, rest := node, children;
    if node.id in children {
      var kids := children[node.id];
      rest := children - {node.id};
      FewerKeys(children, {node.id});
      KidsReady(rows, node.id, d, children);
      kids, rest := AttachAll(rows, kids, rest, Kids(rows, node.id), d + 1);
      tree := Node(node.id, node.row, kids);
      RemovedTwice(children, {node.id}, DescAll(rows, children[node.id]));
      BundleLists(rows, children[node.id], Kids(rows, node.id));
      DescOfNode(rows, node.id, children[node.id]);
    }
  }

  lemma BundleLists(rows: Rows, nodes: seq<Node>, ids: set<Uuid>)
    requires Bundle(rows, nodes, ids)
    ensures Lists(nodes, ids)
  {
  }

  lemma NodeEntry(rows: Rows, children: map<Uuid, seq<Node>>, id: Uuid)
    requires id in rows && Intact(rows, children, Desc(rows, id))
    ensures id in children ==> Bundle(rows, children[id], Kids(rows, id))
    ensures id !in children ==> children == children - Desc(rows, id) && IsTree(rows, Leaf(rows, id), false)
  {
    assert Under(rows, id, id, 0);
    assert id in Desc(rows, id);
    assert Entry(rows, children, id, Kids(rows, id));
    if id !in children {
      DescOfNode(rows, id, []);
      assert Desc(rows, id) == {id};
      assert children == children - {id};
    }
  }

  lemma KidsReady(rows: Rows, id: Uuid, d: nat, children: map<Uuid, seq<Node>>)
    requires AtLevel(rows, id, d) && Intact(rows, children, Desc(rows, id)) && id in children
    requires Bundle(rows, children[id], Kids(rows, id))
    ensures AllAtLevel(rows, children[id], d + 1)
    ensures Intact(rows, children - {id}, DescAll(rows, children[id]))
  {
    KidsLevel(rows, id, d, children[id]);
    NotBelowKids(rows, id, d, children[id]);
    DescOfNode(rows, id, children[id]);
    IntactLess(rows, children, Desc(rows, id), {id}, DescAll(rows, children[id]));
  }

  /** The trees of a level's rows, one after the other. */
  method AttachAll(ghost rows: Rows, nodes: seq<Node>, children: map<Uuid, seq<Node>>, ghost ids: set<Uuid>, ghost d: nat)
    returns (trees: seq<Node>, rest: map<Uuid, seq<Node>>)
    requires Bundle(rows, nodes, ids) && AllAtLevel(rows, nodes, d) && Intact(rows, children, DescAll(rows, nodes))
    ensures AreTrees(rows, trees, ids, false) && rest == children - DescAll(rows, nodes)
    decreases |children.Keys|, 1
  {
    hide Desc, DescAll, Intact, IsTree, Bundle, AllAtLevel, TreesFor, Lists;
    trees, rest := [], children;
    StartAttaching(rows, nodes, children);
    for i := 0 to |nodes|
      invariant TreesFor(rows, trees, nodes, i) && rest == children - DescAll(rows, nodes[..i])
    {
      ghost var gone := DescAll(rows, nodes[..i]);
      NextReady(rows, nodes, children, ids, d, i);
      FewerKeys(children, gone);
      var tree: Node;
      tree, rest := Attach(rows, nodes[i], rest, d);
      RemovedTwice(children, gone, Desc(rows, nodes[i].id));
      DescAllPrefix(rows, nodes, i);
      TreesForNext(rows, trees, nodes, i, tree);
      trees := trees + [tree];
    }
    assert nodes[..|nodes|] == nodes;
    BundleLists(rows, nodes, ids);
    AllTrees(rows, nodes, trees, ids);
  }

  /** Trees for the first i nodes. */
  ghost predicate TreesFor(rows: Rows, trees: seq<Node>, nodes: seq<Node>, i: nat) {
    |trees| == i <= |nodes| && forall j :: 0 <= j < i ==> trees[j].id == nodes[j].id && IsTree(rows, trees[j], false)
  }

  lemma StartAttaching(rows: Rows, nodes: seq<Node>, children: map<Uuid, seq<Node>>)
    ensures TreesFor(rows, [], nodes, 0) && children == children - DescAll(rows, nodes[..0])
  {
  }

  lemma TreesForNext(rows: Rows, trees: seq<Node>, nodes: seq<Node>, i: nat, tree: Node)
    requires TreesFor(rows, trees, nodes, i) && i < |nodes| && tree.id == nodes[i].id && IsTree(rows, tree, false)
    ensures TreesFor(rows, trees + [tree], nodes, i + 1)
  {
  }

  lemma AllTrees(rows: Rows, nodes: seq<Node>, trees: seq<Node>, ids: set<Uuid>)
    requires Lists(nodes, ids) && TreesFor(rows, trees, nodes, |nodes|)
    ensures AreTrees(rows, trees, ids, false)
  {
  }

  lemma NextReady(rows: Rows, nodes: seq<Node>, children: map<Uuid, seq<Node>>, ids: set<Uuid>, d: nat, i: nat)
    requires Bundle(rows, nodes, ids) && AllAtLevel(rows, nodes, d) && Intact(rows, children, DescAll(rows, nodes)) && i < |nodes|
    ensures nodes[i].id in rows && nodes[i] == Leaf(rows, nodes[i].id) && AtLevel(rows, nodes[i].id, d)
    ensures Intact(rows, children - DescAll(rows, nodes[..i]), Desc(rows, nodes[i].id))
  {
    hide Desc, DescAll, Intact;
    LevelDisjoint(rows, nodes, d, i);
    DescInAll(rows, nodes, i);
    IntactLess(rows, children, DescAll(rows, nodes), DescAll(rows, nodes[..i]), Desc(rows, nodes[i].id));
  }

  // ---- sorting ----

  predicate KeyLeq(a: Node, b: Node) {
    !KeyLess(b, a)
  }

  /** sort_by (sequence, id) */
  function SortByKey(s: seq<Node>): seq<Node> {
    Sorting.Sort(KeyLeq, s)
  }

  lemma KeysArePreordered()
    ensures Sorting.Preorder(KeyLeq)
  {
  }

  lemma {:induction false} DistinctAreSingle(s: seq<Node>, n: Node)
    requires DistinctIds(s)
    ensures multiset(s)[n] <= 1
  {
    if s != [] {
      DistinctAreSingle(s[1..], n);
      assert s == [s[0]] + s[1..];
      assert forall m :: m in s[1..] ==> m.id != s[0].id;
    }
  }

  /** A rearrangement of nodes with distinct ids has distinct ids. */
  lemma DistinctRearranged(s: seq<Node>, sorted: seq<Node>)
    requires DistinctIds(s) && multiset(sorted) == multiset(s)
    ensures DistinctIds(sorted)
  {
    forall i, j | 0 <= i < j < |sorted| ensures sorted[i].id != sorted[j].id {
      assert sorted[i] in multiset(s) && sorted[j] in multiset(s);
      Sorting.TwiceCounts(sorted, i, j);
      DistinctAreSingle(s, sorted[i]);
    }
  }

  lemma SortIs(s: seq<Node>)
    requires DistinctIds(s)
    ensures InOrder(SortByKey(s)) && forall m :: m in SortByKey(s) <==> m in s
  {
    var sorted := SortByKey(s);
    KeysArePreordered();
    Sorting.SortIs(KeyLeq, s);
    DistinctRearranged(s, sorted);
    forall m ensures m in sorted <==> m in s {
      assert m in multiset(sorted) <==> m in multiset(s);
    }
    forall i, j | 0 <= i < j < |sorted| ensures KeyLess(sorted[i], sorted[j]) {
      assert KeyLeq(sorted[i], sorted[j]);
    }
  }

  /** A listing keeps its ids when its nodes are put in order. */
  lemma SortedLists(nodes: seq<Node>, ids: set<Uuid>)
    requires Lists(nodes, ids)
    ensures Lists(SortByKey(nodes), ids) && InOrder(SortByKey(nodes))
    ensures forall i :: 0 <= i < |SortByKey(nodes)| ==> SortByKey(nodes)[i] in nodes
  {
    var sorted := SortByKey(nodes);
    SortIs(nodes);
    hide SortByKey;
    forall i | 0 <= i < |sorted| ensures sorted[i] in nodes && sorted[i].id in ids {
      assert sorted[i] in sorted;
    }
    forall id | id in ids ensures exists i :: 0 <= i < |sorted| && sorted[i].id == id {
      var j :| 0 <= j < |nodes| && nodes[j].id == id;
      assert nodes[j] in sorted;
    }
    SortedDistinct(nodes, sorted);
  }

  lemma SortedDistinct(nodes: seq<Node>, sorted: seq<Node>)
    requires DistinctIds(nodes) && InOrder(sorted) && forall i :: 0 <= i < |sorted| ==> sorted[i] in nodes
    ensures DistinctIds(sorted)
  {
  }

  lemma SortedTrees(rows: Rows, nodes: seq<Node>, ids: set<Uuid>)
    requires AreTrees(rows, nodes, ids, false)
    ensures AreTrees(rows, SortByKey(nodes), ids, false) && InOrder(SortByKey(nodes))
    ensures forall i :: 0 <= i < |SortByKey(nodes)| ==> SortByKey(nodes)[i] in nodes
  {
    hide IsTree, SortByKey, Lists, InOrder;
    SortedLists(nodes, ids);
  }

  /** The first i trees are sorted all the way down, the others as they were. */
  ghost predicate SortedUpTo(rows: Rows, sorted: seq<Node>, level: seq<Node>, i: nat) {
    && |sorted| == |level| && i <= |level|
    && (forall j :: 0 <= j < i ==> sorted[j].id == level[j].id && sorted[j].row == level[j].row && IsTree(rows, sorted[j], true))
    && (forall j :: i <= j < |level| ==> sorted[j] == level[j])
  }

  /** Each level is sorted, and then the levels below. */
  method SortRecursive(ghost rows: Rows, nodes: seq<Node>, ghost ids: set<Uuid>) returns (sorted: seq<Node>)
    requires AreTrees(rows, nodes, ids, false)
    ensures AreTrees(rows, sorted, ids, true)
    decreases nodes
  {
    hide SortByKey, SortedUpTo, AreTrees;
    SortedTrees(rows, nodes, ids);
    sorted := SortByKey(nodes);
    ghost var level := sorted;
    StartSorting(rows, level);
    for i := 0 to |sorted|
      invariant SortedUpTo(rows, sorted, level, i) && |sorted| == |level|
    {
      assert level[i] in nodes;
      ChildrenAreTrees(rows, sorted, level, ids, i);
      var children := SortRecursive(rows, sorted[i].children, Kids(rows, sorted[i].id));
      var tree := Node(sorted[i].id, sorted[i].row, children);
      SortedNext(rows, sorted, level, i, tree, ids);
      sorted := sorted[i := tree];
    }
    AllSorted(rows, sorted, level, ids);
  }

  lemma StartSorting(rows: Rows, level: seq<Node>)
    ensures SortedUpTo(rows, level, level, 0)
  {
  }

  lemma ChildrenAreTrees(rows: Rows, sorted: seq<Node>, level: seq<Node>, ids: set<Uuid>, i: nat)
    requires AreTrees(rows, level, ids, false) && SortedUpTo(rows, sorted, level, i) && i < |level|
    ensures sorted[i] == level[i] && AreTrees(rows, sorted[i].children, Kids(rows, sorted[i].id), false)
  {
  }

  lemma SortedNext(rows: Rows, sorted: seq<Node>, level: seq<Node>, i: nat, tree: Node, ids: set<Uuid>)
    requires AreTrees(rows, level, ids, false) && SortedUpTo(rows, sorted, level, i) && i < |level|
    requires tree.id == level[i].id && tree.row == level[i].row && AreTrees(rows, tree.children, Kids(rows, tree.id), true)
    ensures SortedUpTo(rows, sorted[i := tree], level, i + 1)
  {
  }

  lemma AllSorted(rows: Rows, sorted: seq<Node>, level: seq<Node>, ids: set<Uuid>)
    requires AreTrees(rows, level, ids, false) && InOrder(level) && SortedUpTo(rows, sorted, level, |level|)
    ensures AreTrees(rows, sorted, ids, true)
  {
  }

  /** The forest, the same whatever order the hash map yields the rows in: see ForestIsUnique. */
  method BuildTree(rows: Rows) returns (forest: seq<Node>)
    ensures IsForest(rows, forest)
  {
    var roots, children := Group(rows);
    ReadyToAttach(rows, roots, children);
    var trees, rest := AttachAll(rows, roots, children, Roots(rows), 0);
    forest := SortRecursive(rows, trees, Roots(rows));
  }

  lemma ReadyToAttach(rows: Rows, roots: seq<Node>, children: map<Uuid, seq<Node>>)
    requires Grouped(rows, rows.Keys, roots, children)
    ensures Bundle(rows, roots, Roots(rows)) && AllAtLevel(rows, roots, 0) && Intact(rows, children, DescAll(rows, roots))
  {
    assert Roots(rows) * rows.Keys == Roots(rows);
    forall p ensures Entry(rows, children, p, Kids(rows, p)) {
      assert Kids(rows, p) * rows.Keys == Kids(rows, p);
      assert Entry(rows, children, p, Kids(rows, p) * rows.Keys);
    }
  }
}
