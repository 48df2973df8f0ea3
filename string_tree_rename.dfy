/**
 * `StringTree::RenameNode` and `StringTree::RenameNodes` (StringTree.cpp).
 *
 * A rename moves one entry of the node map to a new key and patches the
 * three places that mention the old name: the level bucket, the parent's
 * children and the children's parent. Its meaning is a relabelling: the new
 * tree is the old one with `from` replaced by `to` everywhere, which
 * `Relabelled` states entry by entry.
 */
module StringTreeRename {
  import opened Wrappers
  import opened StringTreeState
  import opened StringOrder

  /** The name m becomes under the rename from -> to. */
  function Renamed(from: string, to: string, m: string): (r: string)
    ensures r == to || r == m
    ensures r == to <==> m == from || m == to
  {
    if m == from then to else m
  }

  /**
   * The names of s under the rename, written with set operations so that
   * no quantifier is needed to state it (`RenamedSetIsImage` shows it is the
   * image of s under `Renamed`).
   */
  function RenamedSet(from: string, to: string, s: set<string>): set<string>
  {
    if from in s then s - {from} + {to} else s
  }

  lemma RenamedSetIsImage(from: string, to: string, s: set<string>)
    ensures RenamedSet(from, to, s) == set m | m in s :: Renamed(from, to, m)
  {
    var image := set m | m in s :: Renamed(from, to, m);
    forall x | x in image
      ensures x in RenamedSet(from, to, s)
    {
      var m :| m in s && Renamed(from, to, m) == x;
    }
  }

  function RenamedNode(from: string, to: string, node: TreeNode): TreeNode
  {
    TreeNode(node.level, RenamedSet(from, to, node.children), Renamed(from, to, node.parent))
  }

  /** t2 is t with every mention of from turned into to. */
  ghost predicate Relabelled(t: Tree, t2: Tree, from: string, to: string)
  {
    RelabelledNames(t, t2, from, to) && RelabelledEntries(t, t2, from, to) && RelabelledBuckets(t, t2, from, to)
  }

  /** The root and the set of names. */
  ghost predicate RelabelledNames(t: Tree, t2: Tree, from: string, to: string)
  {
    t2.root == Renamed(from, to, t.root)
    && (forall m :: m in t2.nodes <==> m == to || (m in t.nodes && m != from))
  }

  /** Each entry of the node map. */
  ghost predicate RelabelledEntries(t: Tree, t2: Tree, from: string, to: string)
  {
    forall m {:trigger t.nodes[m]} :: m in t.nodes ==>
      Renamed(from, to, m) in t2.nodes && t2.nodes[Renamed(from, to, m)] == RenamedNode(from, to, t.nodes[m])
  }

  /** Each bucket of the level map. */
  ghost predicate RelabelledBuckets(t: Tree, t2: Tree, from: string, to: string)
  {
    t2.levels.Keys == t.levels.Keys
    && (forall l :: l in t.levels ==> t2.levels[l] == RenamedSet(from, to, t.levels[l]))
  }

  /**
   * The updates `RenameNode` makes once both names have been checked: the
   * entry moves to the new key, the old name leaves its level's bucket and
   * the new one joins, the parent (unless it is the null name) swaps the
   * names among its children, and every child records the new name as its
   * parent.
   */
  function RenameUpdates(t: Tree, from: string, to: string): Tree
    requires Wellformed(t) && from in t.nodes && to !in t.nodes
  {
    var node := t.nodes[from];
    var nodes1 := (t.nodes - {from})[to := node];
    var nodes2 :=
      if node.parent != NullNodeName then
        ParentNodeFacts(t, from);
        var pn := nodes1[node.parent];
        nodes1[node.parent := pn.(children := pn.children - {from} + {to})]
      else nodes1;
    var nodes3 := map m | m in nodes2 :: if m in node.children then nodes2[m].(parent := to) else nodes2[m];
    Tree(if from == t.root then to else t.root,
         nodes3,
         t.levels[node.level := t.levels[node.level] - {from} + {to}])
  }

  /**
   * `RenameNode(from, to)` as written: an unknown `from` and an existing
   * `to` are refused, in that order, and nothing else is.
   */
  function RenameAsWritten(t: Tree, from: string, to: string): (r: Result<Tree, TreeError>)
    requires Wellformed(t)
    ensures r.Ok? <==> from in t.nodes && to !in t.nodes
    ensures from !in t.nodes ==> r == Err(NoSuchNode)
    ensures from in t.nodes && to in t.nodes ==> r == Err(NodeExists)
  {
    if from !in t.nodes then Err(NoSuchNode)
    else if to in t.nodes then Err(NodeExists)
    else Ok(RenameUpdates(t, from, to))
  }

  /**
   * `RenameNode(from, to)` with the guard it evidently lacks: the null name
   * is refused as a new name, as `CreateChildNode` refuses it as a child.
   */
  function Rename(t: Tree, from: string, to: string): (r: Result<Tree, TreeError>)
    requires Wellformed(t)
    ensures r.Ok? <==> from in t.nodes && to !in t.nodes && to != NullNodeName
    ensures from !in t.nodes ==> r == Err(NoSuchNode)
    ensures from in t.nodes && to in t.nodes ==> r == Err(NodeExists)
    ensures from in t.nodes && to == NullNodeName ==> r == Err(EmptyName)
    ensures r.Ok? ==> RenameAsWritten(t, from, to) == r
  {
    if from !in t.nodes then Err(NoSuchNode)
    else if to in t.nodes then Err(NodeExists)
    else if to == NullNodeName then Err(EmptyName)
    else Ok(RenameUpdates(t, from, to))
  }

  /**
   * `RenameNode(from, to)` on any state, step by step as the source runs:
   * after the two checks, the root name, the node map and the level bucket
   * are updated, then the parent's children unless the parent is the null
   * name, then the children's parents in ascending order. An `at` that finds
   * no entry throws; what was updated before it stays updated.
   */
  ghost function RenameNodeAsWritten(t: Tree, from: string, to: string): (Tree, Outcome<TreeError>)
  {
    if from !in t.nodes then (t, Fail(NoSuchNode))
    else if to in t.nodes then (t, Fail(NodeExists))
    else
      var root := if from == t.root then to else t.root;
      var node := t.nodes[from];
      var nodes1 := (t.nodes - {from})[to := node];
      if node.level !in t.levels then (Tree(root, nodes1, t.levels), Fail(OutOfRange))
      else
        var levels := t.levels[node.level := t.levels[node.level] - {from} + {to}];
        if node.parent != NullNodeName && node.parent !in nodes1 then (Tree(root, nodes1, levels), Fail(OutOfRange))
        else
          var nodes2 :=
            if node.parent != NullNodeName
            then nodes1[node.parent := nodes1[node.parent].(children := nodes1[node.parent].children - {from} + {to})]
            else nodes1;
          var (nodes3, done) := Reparent(nodes2, Sorted(node.children), to);
          (Tree(root, nodes3, levels), if done then Pass else Fail(OutOfRange))
  }

  /** The loop over the children: each one, in turn, records `to` as its parent; a missing one stops the loop. */
  function Reparent(nodes: map<string, TreeNode>, cs: seq<string>, to: string): (map<string, TreeNode>, bool)
    decreases |cs|
  {
    if cs == [] then (nodes, true)
    else if cs[0] !in nodes then (nodes, false)
    else Reparent(nodes[cs[0] := nodes[cs[0]].(parent := to)], cs[1..], to)
  }

  /** With every child present, the loop sets the parent of exactly the children. */
  lemma {:induction false} ReparentAll(nodes: map<string, TreeNode>, cs: seq<string>, to: string)
    requires forall c :: c in cs ==> c in nodes
    ensures Reparent(nodes, cs, to).1
    ensures Reparent(nodes, cs, to).0 == map m | m in nodes :: if m in cs then nodes[m].(parent := to) else nodes[m]
    decreases |cs|
  {
    if cs != [] {
      var c := cs[0];
      var next := nodes[c := nodes[c].(parent := to)];
      ReparentAll(next, cs[1..], to);
      var want := map m | m in nodes :: if m in cs then nodes[m].(parent := to) else nodes[m];
      var got := map m | m in next :: if m in cs[1..] then next[m].(parent := to) else next[m];
      assert got.Keys == want.Keys;
      forall m | m in want
        ensures got[m] == want[m]
      {
        assert m in cs <==> m == c || m in cs[1..];
      }
    }
  }

  /** On a well-formed tree the step by step rename is `RenameAsWritten`: no `at` throws. */
  lemma RenameNodeAsWrittenWellformed(t: Tree, from: string, to: string)
    requires Wellformed(t)
    ensures RenameNodeAsWritten(t, from, to) ==
      match RenameAsWritten(t, from, to)
      case Ok(t2) => (t2, Pass)
      case Err(e) => (t, Fail(e))
  {
    if from in t.nodes && to !in t.nodes {
      var node := t.nodes[from];
      LevelBounds(t, from);
      if node.parent != NullNodeName {
        LevelZeroIsRoot(t, from);
        ParentNodeFacts(t, from);
        ParentsAndLevel(t, from);
      }
      ReparentPresent(t, from, to);
    }
  }

  /** The children's loop of a rename on a well-formed tree finds every child. */
  lemma ReparentPresent(t: Tree, from: string, to: string)
    requires Wellformed(t) && from in t.nodes && to !in t.nodes
    ensures var node := t.nodes[from];
      var nodes1 := (t.nodes - {from})[to := node];
      var nodes2 :=
        if node.parent != NullNodeName && node.parent in nodes1
        then nodes1[node.parent := nodes1[node.parent].(children := nodes1[node.parent].children - {from} + {to})]
        else nodes1;
      Reparent(nodes2, Sorted(node.children), to) ==
        (map m | m in nodes2 :: if m in node.children then nodes2[m].(parent := to) else nodes2[m], true)
  {
    var node := t.nodes[from];
    var nodes1 := (t.nodes - {from})[to := node];
    var nodes2 :=
      if node.parent != NullNodeName && node.parent in nodes1
      then nodes1[node.parent := nodes1[node.parent].(children := nodes1[node.parent].children - {from} + {to})]
      else nodes1;
    SortedContents(node.children);
    forall c | c in Sorted(node.children)
      ensures c in nodes2
    {
      ChildFacts(t, from, c);
      ParentsAndLevel(t, from);
    }
    ReparentAll(nodes2, Sorted(node.children), to);
    SameMembersSameUpdate(nodes2, Sorted(node.children), node.children, to);
  }

  lemma SameMembersSameUpdate(nodes: map<string, TreeNode>, cs: seq<string>, s: set<string>, to: string)
    requires forall m :: m in cs <==> m in s
    ensures (map m | m in nodes :: if m in cs then nodes[m].(parent := to) else nodes[m])
         == (map m | m in nodes :: if m in s then nodes[m].(parent := to) else nodes[m])
  {
    var a := map m | m in nodes :: if m in cs then nodes[m].(parent := to) else nodes[m];
    var b := map m | m in nodes :: if m in s then nodes[m].(parent := to) else nodes[m];
    assert a.Keys == b.Keys;
    forall m | m in a
      ensures a[m] == b[m]
    {
    }
  }

  // The updates are a relabelling.

  /** Where from sits among its neighbours: only its parent lists it, only its children name it. */
  lemma Neighbours(t: Tree, from: string, m: string)
    requires Wellformed(t) && from in t.nodes && m in t.nodes && m != from
    ensures from in t.nodes[m].children <==> from != t.root && m == ParentOf(t, from)
    ensures ParentOf(t, m) == from <==> m in t.nodes[from].children
  {
    if from != t.root {
      var q := ParentOf(t, from);
    }
    if m != t.root {
      var q := ParentOf(t, m);
    } else {
      assert ParentOf(t, m) == NullNodeName;
    }
  }

  /** The entry of one old name after the updates. */
  lemma RenameUpdatesEntry(t: Tree, from: string, to: string, m: string)
    requires Wellformed(t) && from in t.nodes && to !in t.nodes && m in t.nodes
    ensures var t2 := RenameUpdates(t, from, to);
      Renamed(from, to, m) in t2.nodes && t2.nodes[Renamed(from, to, m)] == RenamedNode(from, to, t.nodes[m])
  {
    var node := t.nodes[m];
    var t2 := RenameUpdates(t, from, to);
    ParentsAndLevel(t, m);
    if m == from {
      assert t2.nodes[to] == node;
    } else {
      Neighbours(t, from, m);
      if from in node.children {
      } else {
      }
    }
  }

  /** The parent of m is another node (or the null name for the root). */
  lemma ParentsAndLevel(t: Tree, m: string)
    requires Wellformed(t) && m in t.nodes
    ensures ParentOf(t, m) != m && m !in t.nodes[m].children
    ensures m == t.root <==> ParentOf(t, m) == NullNodeName
  {
    if m != t.root {
      var q := ParentOf(t, m);
    }
  }

  /** The root and the names after the updates. */
  lemma RenameUpdatesKeys(t: Tree, from: string, to: string)
    requires Wellformed(t) && from in t.nodes && to !in t.nodes
    ensures var t2 := RenameUpdates(t, from, to);
      t2.root == Renamed(from, to, t.root)
      && (forall m :: m in t2.nodes <==> m == to || (m in t.nodes && m != from))
  {
    ParentsAndLevel(t, from);
    if from != t.root {
      ParentNodeFacts(t, from);
    }
  }

  /** The level buckets after the updates. */
  lemma RenameUpdatesLevels(t: Tree, from: string, to: string)
    requires Wellformed(t) && from in t.nodes && to !in t.nodes
    ensures var t2 := RenameUpdates(t, from, to);
      t2.levels.Keys == t.levels.Keys
      && (forall l :: l in t.levels ==> t2.levels[l] == RenamedSet(from, to, t.levels[l]))
  {
    var t2 := RenameUpdates(t, from, to);
    var l := t.nodes[from].level;
    assert from in t.levels[l];
    forall k | k in t.levels
      ensures t2.levels[k] == RenamedSet(from, to, t.levels[k])
    {
      if k == l {
      } else {
      }
    }
  }

  /** `RenameUpdates` is the relabelling from -> to. */
  lemma RenameRelabels(t: Tree, from: string, to: string)
    requires Wellformed(t) && from in t.nodes && to !in t.nodes
    ensures Relabelled(t, RenameUpdates(t, from, to), from, to)
  {
    var t2 := RenameUpdates(t, from, to);
    forall m | m in t.nodes
      ensures Renamed(from, to, m) in t2.nodes && t2.nodes[Renamed(from, to, m)] == RenamedNode(from, to, t.nodes[m])
    {
      RenameUpdatesEntry(t, from, to, m);
    }
    RenameUpdatesKeys(t, from, to);
    RenameUpdatesLevels(t, from, to);
  }

  // A relabelling keeps the invariant.

  /** The old name that became m. */
  function Original(from: string, to: string, m: string): string
  {
    if m == to then from else m
  }

  /** What a relabelling needs of its names: an old name, a fresh non-null new one. */
  ghost predicate FreshName(t: Tree, from: string, to: string)
  {
    from in t.nodes && to !in t.nodes && to != NullNodeName
  }

  lemma RelabelledRoot(t: Tree, t2: Tree, from: string, to: string)
    requires RootOk(t) && NamesOk(t) && FreshName(t, from, to) && Relabelled(t, t2, from, to)
    ensures RootOk(t2) && NamesOk(t2)
  {
    assert t2.nodes[Renamed(from, to, t.root)] == RenamedNode(from, to, t.nodes[t.root]);
  }

  lemma RelabelledParents(t: Tree, t2: Tree, from: string, to: string)
    requires RootOk(t) && ParentsOk(t) && FreshName(t, from, to) && Relabelled(t, t2, from, to)
    ensures ParentsOk(t2)
  {
    forall m | m in t2.nodes && m != t2.root
      ensures ParentOf(t2, m) in t2.nodes
      ensures m in t2.nodes[ParentOf(t2, m)].children
      ensures t2.nodes[m].level == t2.nodes[ParentOf(t2, m)].level + 1
    {
      var m0 := Original(from, to, m);
      assert Renamed(from, to, m0) == m && m0 in t.nodes && m0 != t.root;
      var p0 := ParentOf(t, m0);
      assert t2.nodes[m] == RenamedNode(from, to, t.nodes[m0]);
      assert ParentOf(t2, m) == Renamed(from, to, p0);
      assert t2.nodes[Renamed(from, to, p0)] == RenamedNode(from, to, t.nodes[p0]);
      assert m in RenamedSet(from, to, t.nodes[p0].children);
    }
  }

  lemma RelabelledChildren(t: Tree, t2: Tree, from: string, to: string)
    requires ChildrenOk(t) && FreshName(t, from, to) && Relabelled(t, t2, from, to)
    ensures ChildrenOk(t2)
  {
    forall m, x | m in t2.nodes && x in t2.nodes[m].children
      ensures x in t2.nodes && ParentOf(t2, x) == m
    {
      RelabelledChild(t, t2, from, to, m, x);
    }
  }

  /** One child link after relabelling. */
  lemma RelabelledChild(t: Tree, t2: Tree, from: string, to: string, m: string, x: string)
    requires ChildrenOk(t) && FreshName(t, from, to) && Relabelled(t, t2, from, to)
    requires m in t2.nodes && x in t2.nodes[m].children
    ensures x in t2.nodes && ParentOf(t2, x) == m
  {
    var m0 := Original(from, to, m);
    assert Renamed(from, to, m0) == m && m0 in t.nodes;
    assert t2.nodes[m] == RenamedNode(from, to, t.nodes[m0]);
    var x0 :| x0 in t.nodes[m0].children && Renamed(from, to, x0) == x;
    assert ParentOf(t, x0) == m0;
    assert t2.nodes[x] == RenamedNode(from, to, t.nodes[x0]);
  }

  lemma RelabelledIndexNodes(t: Tree, t2: Tree, from: string, to: string)
    requires LevelIndexOk(t) && FreshName(t, from, to) && Relabelled(t, t2, from, to)
    ensures forall m :: m in t2.nodes ==> t2.nodes[m].level in t2.levels && m in t2.levels[t2.nodes[m].level]
  {
    forall m | m in t2.nodes
      ensures t2.nodes[m].level in t2.levels && m in t2.levels[t2.nodes[m].level]
    {
      var m0 := Original(from, to, m);
      assert Renamed(from, to, m0) == m && m0 in t.nodes;
      assert t2.nodes[m] == RenamedNode(from, to, t.nodes[m0]);
      var l := t.nodes[m0].level;
      assert m in RenamedSet(from, to, t.levels[l]);
    }
  }

  lemma RelabelledIndexLevels(t: Tree, t2: Tree, from: string, to: string)
    requires LevelIndexOk(t) && FreshName(t, from, to) && Relabelled(t, t2, from, to)
    ensures forall l, n :: l in t2.levels && n in t2.levels[l] ==> n in t2.nodes && t2.nodes[n].level == l
  {
    forall l, n | l in t2.levels && n in t2.levels[l]
      ensures n in t2.nodes && t2.nodes[n].level == l
    {
      var n0 :| n0 in t.levels[l] && Renamed(from, to, n0) == n;
      assert t2.nodes[n] == RenamedNode(from, to, t.nodes[n0]);
    }
  }

  lemma RelabelledIndex(t: Tree, t2: Tree, from: string, to: string)
    requires LevelIndexOk(t) && FreshName(t, from, to) && Relabelled(t, t2, from, to)
    ensures LevelIndexOk(t2)
  {
    RelabelledIndexNodes(t, t2, from, to);
    RelabelledIndexLevels(t, t2, from, to);
  }

  lemma RelabelledLevels(t: Tree, t2: Tree, from: string, to: string)
    requires LevelsOk(t) && Relabelled(t, t2, from, to)
    ensures LevelsOk(t2)
  {
    assert |t2.levels| == |t2.levels.Keys| == |t.levels.Keys| == |t.levels|;
    forall l | l in t2.levels
      ensures t2.levels[l] != {}
    {
      var n :| n in t.levels[l];
      assert Renamed(from, to, n) in t2.levels[l];
    }
  }

  /** A relabelling to a fresh, non-null name keeps the invariant. */
  lemma RelabelledWellformed(t: Tree, t2: Tree, from: string, to: string)
    requires Wellformed(t) && FreshName(t, from, to) && Relabelled(t, t2, from, to)
    ensures Wellformed(t2)
  {
    RelabelledRoot(t, t2, from, to);
    RelabelledParents(t, t2, from, to);
    RelabelledChildren(t, t2, from, to);
    RelabelledIndex(t, t2, from, to);
    RelabelledLevels(t, t2, from, to);
  }

  /** `RenameNode` with the null-name guard keeps the invariant. */
  lemma RenameWellformed(t: Tree, from: string, to: string)
    requires Wellformed(t) && Rename(t, from, to).Ok?
    ensures Wellformed(Rename(t, from, to).value)
  {
    RenameRelabels(t, from, to);
    RelabelledWellformed(t, RenameUpdates(t, from, to), from, to);
  }

  /**
   * As written, renaming any node to the null name succeeds and breaks the
   * tree: the null name becomes a node, and every child of the renamed node
   * then reports the null name, the parent of the root, as its parent.
   */
  lemma RenameToNullName(t: Tree, from: string)
    requires Wellformed(t) && from in t.nodes
    ensures RenameAsWritten(t, from, NullNodeName).Ok?
    ensures var t2 := RenameAsWritten(t, from, NullNodeName).value;
      !Wellformed(t2)
      && forall c :: c in t.nodes[from].children ==>
           c != t2.root && GetParentNode(t2, c) == Ok(NullNodeName)
  {
    var t2 := RenameAsWritten(t, from, NullNodeName).value;
    RenameUpdatesKeys(t, from, NullNodeName);
    assert NullNodeName in t2.nodes;
    forall c | c in t.nodes[from].children
      ensures c != t2.root && GetParentNode(t2, c) == Ok(NullNodeName)
    {
      OrphanedChild(t, from, c);
    }
  }

  /** One child of a node renamed to the null name. */
  lemma OrphanedChild(t: Tree, from: string, c: string)
    requires Wellformed(t) && from in t.nodes && c in t.nodes[from].children
    ensures var t2 := RenameUpdates(t, from, NullNodeName);
      c != t2.root && GetParentNode(t2, c) == Ok(NullNodeName)
  {
    assert ParentOf(t, c) == from;
    ParentsAndLevel(t, c);
    RenameUpdatesEntry(t, from, NullNodeName, c);
    RenameUpdatesKeys(t, from, NullNodeName);
  }

  // Renaming back.

  /** Renaming from -> to and then to -> from changes no set that never held to. */
  lemma RenamedSetInverse(from: string, to: string, s: set<string>)
    requires to !in s
    ensures RenamedSet(to, from, RenamedSet(from, to, s)) == s
  {
    if from in s && from != to {
      assert s - {from} + {to} - {to} + {from} == s;
    }
  }

  /** The name to occurs nowhere in t. */
  ghost predicate Avoids(t: Tree, to: string)
  {
    to !in t.nodes
    && (forall m {:trigger t.nodes[m]} :: m in t.nodes ==> to !in t.nodes[m].children && t.nodes[m].parent != to)
    && (forall l :: l in t.levels ==> to !in t.levels[l])
  }

  lemma WellformedAvoids(t: Tree, to: string)
    requires Wellformed(t) && to !in t.nodes && to != NullNodeName
    ensures Avoids(t, to)
  {
    forall m | m in t.nodes
      ensures t.nodes[m].parent != to
    {
      ParentsAndLevel(t, m);
      if m != t.root {
        var q := ParentOf(t, m);
      }
    }
  }

  /** One entry after two relabellings that undo each other. */
  lemma RelabelledTwiceEntry(t: Tree, t2: Tree, t3: Tree, from: string, to: string, m: string)
    requires from in t.nodes && Avoids(t, to) && m in t.nodes
    requires RelabelledEntries(t, t2, from, to) && RelabelledEntries(t2, t3, to, from)
    ensures m in t3.nodes && t3.nodes[m] == t.nodes[m]
  {
    var m2 := Renamed(from, to, m);
    assert Renamed(to, from, m2) == m;
    assert t2.nodes[m2] == RenamedNode(from, to, t.nodes[m]);
    assert t3.nodes[m] == RenamedNode(to, from, t2.nodes[m2]);
    RenamedSetInverse(from, to, t.nodes[m].children);
  }

  /**
   * a agrees with b component by component. Stated pointwise, so that the
   * relabelling facts never meet an equation between the two node maps.
   */
  ghost predicate Agree(a: Tree, b: Tree)
  {
    a.root == b.root && a.nodes.Keys == b.nodes.Keys
    && (forall m :: m in b.nodes ==> a.nodes[m] == b.nodes[m])
    && a.levels.Keys == b.levels.Keys
    && (forall l :: l in b.levels ==> a.levels[l] == b.levels[l])
  }

  lemma AgreeEqual(a: Tree, b: Tree)
    requires Agree(a, b)
    ensures a == b
  {
    assert a.nodes == b.nodes;
    assert forall l :: l in a.levels ==> a.levels[l] == b.levels[l];
    assert a.levels == b.levels;
  }

  /** Two relabellings that undo each other give back the root and the names. */
  lemma RelabelledTwiceKeys(t: Tree, t2: Tree, t3: Tree, from: string, to: string)
    requires from in t.nodes && to !in t.nodes && t.root in t.nodes
    requires RelabelledNames(t, t2, from, to) && RelabelledNames(t2, t3, to, from)
    ensures t3.root == t.root && t3.nodes.Keys == t.nodes.Keys
  {
    forall m
      ensures m in t3.nodes <==> m in t.nodes
    {
      if m in t3.nodes {
        assert m == from || (m in t2.nodes && m != to);
      }
      if m in t.nodes && m != from {
        assert m in t2.nodes;
      }
    }
  }

  /** Two relabellings that undo each other agree with the tree. */
  lemma RelabelledTwice(t: Tree, t2: Tree, t3: Tree, from: string, to: string)
    requires from in t.nodes && t.root in t.nodes && Avoids(t, to)
    requires Relabelled(t, t2, from, to) && Relabelled(t2, t3, to, from)
    ensures Agree(t3, t)
  {
    RelabelledTwiceKeys(t, t2, t3, from, to);
    RelabelledTwiceEntries(t, t2, t3, from, to);
    RelabelledTwiceBuckets(t, t2, t3, from, to);
  }

  lemma RelabelledTwiceEntries(t: Tree, t2: Tree, t3: Tree, from: string, to: string)
    requires from in t.nodes && Avoids(t, to)
    requires RelabelledEntries(t, t2, from, to) && RelabelledEntries(t2, t3, to, from)
    ensures forall m :: m in t.nodes ==> t3.nodes[m] == t.nodes[m]
  {
    forall m | m in t.nodes
      ensures t3.nodes[m] == t.nodes[m]
    {
      RelabelledTwiceEntry(t, t2, t3, from, to, m);
    }
  }

  lemma RelabelledTwiceBuckets(t: Tree, t2: Tree, t3: Tree, from: string, to: string)
    requires Avoids(t, to)
    requires RelabelledBuckets(t, t2, from, to) && RelabelledBuckets(t2, t3, to, from)
    ensures t3.levels.Keys == t.levels.Keys
    ensures forall l :: l in t.levels ==> t3.levels[l] == t.levels[l]
  {
    forall l | l in t.levels
      ensures t3.levels[l] == t.levels[l]
    {
      RenamedSetInverse(from, to, t.levels[l]);
    }
  }

  /** The updates of renaming from -> to and then to -> from agree with the tree. */
  lemma RenameUpdatesTwice(t: Tree, from: string, to: string)
    requires Wellformed(t) && FreshName(t, from, to)
    ensures Wellformed(RenameUpdates(t, from, to))
    ensures to in RenameUpdates(t, from, to).nodes && from !in RenameUpdates(t, from, to).nodes
    ensures Agree(RenameUpdates(RenameUpdates(t, from, to), to, from), t)
  {
    var t2 := RenameUpdates(t, from, to);
    RenameRelabels(t, from, to);
    RelabelledWellformed(t, t2, from, to);
    var t3 := RenameUpdates(t2, to, from);
    RenameRelabels(t2, to, from);
    WellformedAvoids(t, to);
    RelabelledTwice(t, t2, t3, from, to);
  }

  /** Renaming a node and renaming it back restores the tree. */
  lemma RenameBack(t: Tree, from: string, to: string)
    requires Wellformed(t) && Rename(t, from, to).Ok?
    ensures Wellformed(Rename(t, from, to).value)
    ensures Rename(Rename(t, from, to).value, to, from) == Ok(t)
  {
    RenameUpdatesTwice(t, from, to);
    AgreeEqual(RenameUpdates(RenameUpdates(t, from, to), to, from), t);
  }

  // RenameNodes

  /**
   * `RenameNodes(list)`: the renames in list order. The first one that
   * fails ends the call with its failure; the ones before it stay done.
   */
  function RenameAll(t: Tree, renames: seq<(string, string)>): (r: (Tree, Outcome<TreeError>))
    requires Wellformed(t)
    ensures Wellformed(r.0)
    decreases |renames|
  {
    if renames == [] then (t, Pass)
    else
      match Rename(t, renames[0].0, renames[0].1)
      case Err(e) => (t, Fail(e))
      case Ok(t1) => RenameWellformed(t, renames[0].0, renames[0].1); RenameAll(t1, renames[1..])
  }

  /** Doing A and then B is doing A + B, unless A fails. */
  lemma {:induction false} RenameAllAppend(t: Tree, a: seq<(string, string)>, b: seq<(string, string)>)
    requires Wellformed(t)
    ensures RenameAll(t, a + b) ==
      if RenameAll(t, a).1 == Pass then RenameAll(RenameAll(t, a).0, b) else RenameAll(t, a)
    decreases |a|
  {
    if a != [] {
      assert (a + b)[0] == a[0] && (a + b)[1..] == a[1..] + b;
      var r := Rename(t, a[0].0, a[0].1);
      if r.Ok? {
        RenameWellformed(t, a[0].0, a[0].1);
        RenameAllAppend(r.value, a[1..], b);
      }
    } else {
      assert a + b == b;
    }
  }

  /**
   * A failing `RenameNodes` has done every rename before the failing one
   * and none after it: nothing is rolled back.
   */
  lemma {:induction false} RenameAllStops(t: Tree, renames: seq<(string, string)>) returns (i: nat)
    requires Wellformed(t) && RenameAll(t, renames).1.Fail?
    ensures i < |renames|
    ensures RenameAll(t, renames[..i]) == (RenameAll(t, renames).0, Pass)
    ensures Rename(RenameAll(t, renames).0, renames[i].0, renames[i].1) == Err(RenameAll(t, renames).1.error)
    decreases |renames|
  {
    var r := Rename(t, renames[0].0, renames[0].1);
    if r.Err? {
      i := 0;
      assert renames[..0] == [];
    } else {
      RenameWellformed(t, renames[0].0, renames[0].1);
      var j := RenameAllStops(r.value, renames[1..]);
      i := j + 1;
      assert renames[..i][0] == renames[0] && renames[..i][1..] == renames[1..][..j];
      assert renames[i] == renames[1..][j];
    }
  }

  /** The renames that undo a list: each one reversed, in reverse order. */
  function Undo(renames: seq<(string, string)>): (u: seq<(string, string)>)
    ensures |u| == |renames|
    ensures forall i :: 0 <= i < |u| ==> u[i] == (renames[|renames| - 1 - i].1, renames[|renames| - 1 - i].0)
  {
    if renames == [] then [] else Undo(renames[1..]) + [(renames[0].1, renames[0].0)]
  }

  /** A `RenameNodes` that succeeds is undone by the reversed list. */
  lemma {:induction false} RenameAllUndo(t: Tree, renames: seq<(string, string)>)
    requires Wellformed(t) && RenameAll(t, renames).1 == Pass
    ensures RenameAll(RenameAll(t, renames).0, Undo(renames)) == (t, Pass)
    decreases |renames|
  {
    if renames != [] {
      var x := renames[0];
      RenameBack(t, x.0, x.1);
      var t1 := Rename(t, x.0, x.1).value;
      RenameAllUndo(t1, renames[1..]);
      var tn := RenameAll(t, renames).0;
      assert tn == RenameAll(t1, renames[1..]).0;
      RenameAllAppend(tn, Undo(renames[1..]), [(x.1, x.0)]);
      assert RenameAll(t1, [(x.1, x.0)]) == (t, Pass);
    }
  }

  /**
   * `RenameNodes(list)` as the source runs it: the step by step renames in
   * list order, up to the first that throws, whose partial updates stay.
   */
  ghost function RenameAllAsWritten(t: Tree, renames: seq<(string, string)>): (Tree, Outcome<TreeError>)
    decreases |renames|
  {
    if renames == [] then (t, Pass)
    else
      var (t1, o) := RenameNodeAsWritten(t, renames[0].0, renames[0].1);
      if o.Fail? then (t1, o) else RenameAllAsWritten(t1, renames[1..])
  }

  /**
   * From a well-formed tree, the source's `RenameNodes` does what the
   * corrected one does unless the corrected one stops at a rename to the
   * null name.
   */
  lemma {:induction false} RenameAllAsWrittenAgrees(t: Tree, renames: seq<(string, string)>)
    requires Wellformed(t)
    ensures RenameAll(t, renames).1 != Fail(EmptyName) ==> RenameAllAsWritten(t, renames) == RenameAll(t, renames)
    decreases |renames|
  {
    if renames != [] {
      var (from, to) := renames[0];
      RenameNodeAsWrittenWellformed(t, from, to);
      var r := Rename(t, from, to);
      if r.Ok? {
        RenameWellformed(t, from, to);
        RenameAllAsWrittenAgrees(r.value, renames[1..]);
      }
    }
  }

  /**
   * As written, `RenameNodes([(b, "")])` succeeds for any node b and leaves
   * a tree that breaks the invariant; the corrected one refuses it and
   * changes nothing.
   */
  lemma RenameNodesToNullName(t: Tree, b: string)
    requires Wellformed(t) && b in t.nodes
    ensures RenameAllAsWritten(t, [(b, NullNodeName)]).1 == Pass
    ensures !Wellformed(RenameAllAsWritten(t, [(b, NullNodeName)]).0)
    ensures RenameAll(t, [(b, NullNodeName)]) == (t, Fail(EmptyName))
  {
    RenameNodeAsWrittenWellformed(t, b, NullNodeName);
    RenameToNullName(t, b);
    assert [(b, NullNodeName)][1..] == [];
  }

  /** A child missing from the map stops the children's loop short. */
  lemma {:induction false} ReparentMissing(nodes: map<string, TreeNode>, cs: seq<string>, to: string, c: string)
    requires c in cs && c !in nodes
    ensures !Reparent(nodes, cs, to).1
    decreases |cs|
  {
    if cs[0] in nodes {
      ReparentMissing(nodes[cs[0] := nodes[cs[0]].(parent := to)], cs[1..], to, c);
    }
  }

  /** A rename of a node that lists a child missing from the map throws. */
  lemma RenameMissingChildThrows(u: Tree, from: string, to: string, c: string)
    requires from in u.nodes && to !in u.nodes
    requires c in u.nodes[from].children && c !in u.nodes && c != to
    ensures RenameNodeAsWritten(u, from, to).1 == Fail(OutOfRange)
  {
    var node := u.nodes[from];
    var nodes1 := (u.nodes - {from})[to := node];
    if node.level in u.levels && (node.parent == NullNodeName || node.parent in nodes1) {
      var nodes2 :=
        if node.parent != NullNodeName
        then nodes1[node.parent := nodes1[node.parent].(children := nodes1[node.parent].children - {from} + {to})]
        else nodes1;
      assert c !in nodes2;
      SortedContents(node.children);
      ReparentMissing(nodes2, Sorted(node.children), to, c);
    }
  }

  /**
   * A rename of a node whose parent is the null name leaves every other
   * node's entry but its children's as it was, so no parent forgets it.
   */
  lemma RenameOrphan(u: Tree, c: string, d: string)
    requires c in u.nodes && d !in u.nodes && u.nodes[c].level in u.levels && u.nodes[c].parent == NullNodeName
    requires forall g :: g in u.nodes[c].children ==> g in u.nodes && g != c
    ensures RenameNodeAsWritten(u, c, d).1 == Pass
    ensures var u2 := RenameNodeAsWritten(u, c, d).0;
      u2.levels.Keys == u.levels.Keys
      && (forall m :: m in u2.nodes <==> m == d || (m in u.nodes && m != c))
      && (forall m :: m in u.nodes && m != c && m !in u.nodes[c].children ==> u2.nodes[m] == u.nodes[m])
  {
    var node := u.nodes[c];
    var nodes1 := (u.nodes - {c})[d := node];
    SortedContents(node.children);
    ReparentAll(nodes1, Sorted(node.children), d);
  }

  /** What the first step of `RenameNodesThrowsAfterNullName` leaves behind. */
  lemma NullRenameFacts(t: Tree, a: string, c: string)
    requires Wellformed(t) && a in t.nodes && c in t.nodes[a].children
    ensures RenameNodeAsWritten(t, a, NullNodeName).1 == Pass
    ensures var t1 := RenameNodeAsWritten(t, a, NullNodeName).0;
      c in t1.nodes && t1.nodes[c].parent == NullNodeName && t1.nodes[c].level in t1.levels
      && NullNodeName in t1.nodes && c in t1.nodes[NullNodeName].children
      && (forall g :: g in t1.nodes[c].children ==> g in t.nodes && g in t1.nodes && g != c && g != NullNodeName)
      && (forall m :: m in t1.nodes ==> m == NullNodeName || m in t.nodes)
  {
    RenameNodeAsWrittenWellformed(t, a, NullNodeName);
    var t1 := RenameUpdates(t, a, NullNodeName);
    RenameRelabels(t, a, NullNodeName);
    ChildFacts(t, a, c);
    forall g | g in t.nodes[c].children
      ensures g in t.nodes && g != a && g != c && g != NullNodeName
    {
      ChildFacts(t, c, g);
    }
    assert t1.nodes[c] == RenamedNode(a, NullNodeName, t.nodes[c]);
    assert t1.nodes[NullNodeName] == RenamedNode(a, NullNodeName, t.nodes[a]);
    assert t1.nodes[c].children == t.nodes[c].children;
    assert t.nodes[c].level in t.levels;
  }

  /**
   * As written, after a rename of a to the null name, renaming a child c of
   * a leaves c listed among the children of the node now named "" (that
   * rename sees the null name as "no parent"), and renaming "" afterwards
   * throws: `RenameNodes([(a, ""), (c, d), ("", x)])` fails with
   * std::out_of_range.
   */
  lemma RenameNodesThrowsAfterNullName(t: Tree, a: string, c: string, d: string, x: string)
    requires Wellformed(t) && a in t.nodes && c in t.nodes[a].children
    requires d != NullNodeName && d !in t.nodes && x != NullNodeName && x !in t.nodes && x != d
    ensures RenameAllAsWritten(t, [(a, NullNodeName), (c, d), (NullNodeName, x)]).1 == Fail(OutOfRange)
  {
    var renames := [(a, NullNodeName), (c, d), (NullNodeName, x)];
    NullRenameFacts(t, a, c);
    var t1 := RenameNodeAsWritten(t, a, NullNodeName).0;
    RenameOrphan(t1, c, d);
    var t2 := RenameNodeAsWritten(t1, c, d).0;
    assert t2.nodes[NullNodeName] == t1.nodes[NullNodeName];
    RenameMissingChildThrows(t2, NullNodeName, x, c);
    RenameAllAsWrittenStep(t, renames);
    assert renames[1..] == [(c, d), (NullNodeName, x)];
    RenameAllAsWrittenStep(t1, renames[1..]);
    assert renames[1..][1..] == [(NullNodeName, x)];
  }

  /** One step of the as-written fold. */
  lemma RenameAllAsWrittenStep(t: Tree, renames: seq<(string, string)>)
    requires renames != []
    ensures var (t1, o) := RenameNodeAsWritten(t, renames[0].0, renames[0].1);
      RenameAllAsWritten(t, renames) == if o.Fail? then (t1, o) else RenameAllAsWritten(t1, renames[1..])
  {
  }
}
