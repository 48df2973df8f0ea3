/**
 * `StringTree::RemoveLevel` (StringTree.cpp): squeezing one level out of the
 * tree. The nodes of that level go; their parents adopt their children; every
 * deeper node moves up a level, and so do the buckets of the level map.
 */
module StringTreeRemoveLevel {
  import opened Wrappers
  import opened StringTreeState
  import StringTreeEdit

  /**
   * `RemoveLevel(level)`: level 0 is refused as the root's, a level beyond
   * the maximum changes nothing, and a negative level fails where
   * `GetNodesByLevel` finds no bucket for it.
   */
  function RemoveLevel(t: Tree, level: int): (r: Result<Tree, TreeError>)
    requires Wellformed(t)
    ensures level == 0 ==> r == Err(RootRemoval)
    ensures level > GetMaxLevel(t) ==> r == Ok(t)
    ensures level < 0 ==> r == Err(NoSuchLevel)
    ensures r.Ok? <==> level > 0
  {
    if level == 0 then Err(RootRemoval)
    else if level > GetMaxLevel(t) then Ok(t)
    else if level !in t.levels then Err(NoSuchLevel)
    else Ok(Squeezed(t, level))
  }

  /** The tree with level `level` (0 < level <= maximum) squeezed out. */
  function Squeezed(t: Tree, level: int): Tree
    requires Wellformed(t) && 0 < level < |t.levels|
  {
    Tree(t.root,
         map m | m in t.nodes && t.nodes[m].level != level :: SqueezedNode(t, level, m),
         map l | 0 <= l < |t.levels| - 1 :: ShiftedBucket(t, level, l))
  }

  /** Bucket l after squeezing: the old bucket l above the squeezed level, bucket l + 1 from it on. */
  function ShiftedBucket(t: Tree, level: int, l: int): set<string>
    requires Wellformed(t) && 0 <= l < |t.levels| - 1
  {
    if l < level then t.levels[l] else t.levels[l + 1]
  }

  /**
   * The entry of a surviving node m: one level up it takes the children of
   * its children; one level down its parent's parent becomes its parent;
   * below the squeezed level it moves up one level.
   */
  function SqueezedNode(t: Tree, level: int, m: string): TreeNode
    requires Wellformed(t) && 0 < level && m in t.nodes
  {
    var node := t.nodes[m];
    if node.level == level - 1 then
      node.(children := set c, g | c in node.children && c in t.nodes && g in t.nodes[c].children :: g)
    else if node.level == level + 1 then
      LevelZeroIsRoot(t, m);
      ParentNodeFacts(t, m);
      node.(level := level, parent := t.nodes[node.parent].parent)
    else if node.level > level then
      node.(level := node.level - 1)
    else
      node
  }

  /** The children of m's children: all of them at m's level plus two. */
  ghost function Grandchildren(t: Tree, m: string): set<string>
    requires m in t.nodes
  {
    set c, g | c in t.nodes[m].children && c in t.nodes && g in t.nodes[c].children :: g
  }

  /** What squeezing does, entry by entry, stated through the invariant's own terms. */
  ghost predicate LevelSqueezed(t: Tree, t2: Tree, level: int)
  {
    t2.root == t.root
    && (forall m :: m in t2.nodes <==> m in t.nodes && t.nodes[m].level != level)
    && (forall m :: m in t2.nodes ==> SqueezedEntry(t, t2, level, m))
    && (forall l :: l in t2.levels <==> 0 <= l < |t.levels| - 1)
    && (forall l :: l in t2.levels && l < level ==> l in t.levels && t2.levels[l] == t.levels[l])
    && (forall l :: l in t2.levels && l >= level ==> l + 1 in t.levels && t2.levels[l] == t.levels[l + 1])
  }

  ghost predicate SqueezedEntry(t: Tree, t2: Tree, level: int, m: string)
    requires m in t.nodes && m in t2.nodes
  {
    var node, node2 := t.nodes[m], t2.nodes[m];
    node2.level == (if node.level > level then node.level - 1 else node.level)
    && node2.children == (if node.level == level - 1 then Grandchildren(t, m) else node.children)
    && (node.level == level + 1 ==> node.parent in t.nodes && node2.parent == ParentOf(t, node.parent))
    && (node.level != level + 1 ==> node2.parent == node.parent)
  }

  lemma SqueezedEffect(t: Tree, level: int)
    requires Wellformed(t) && 0 < level < |t.levels|
    ensures LevelSqueezed(t, Squeezed(t, level), level)
  {
    var t2 := Squeezed(t, level);
    forall m | m in t2.nodes
      ensures SqueezedEntry(t, t2, level, m)
    {
      if t.nodes[m].level == level + 1 {
        LevelZeroIsRoot(t, m);
        ParentNodeFacts(t, m);
      }
    }
  }

  lemma SqueezedRoot(t: Tree, t2: Tree, level: int)
    requires RootOk(t) && NamesOk(t) && 0 < level && LevelSqueezed(t, t2, level)
    ensures RootOk(t2) && NamesOk(t2)
  {
    assert SqueezedEntry(t, t2, level, t.root);
  }

  lemma SqueezedParents(t: Tree, t2: Tree, level: int)
    requires RootOk(t) && ParentsOk(t) && ChildrenOk(t) && 0 < level && LevelSqueezed(t, t2, level)
    ensures ParentsOk(t2)
  {
    forall m | m in t2.nodes && m != t2.root
      ensures ParentOf(t2, m) in t2.nodes
      ensures m in t2.nodes[ParentOf(t2, m)].children
      ensures t2.nodes[m].level == t2.nodes[ParentOf(t2, m)].level + 1
    {
      SqueezedParent(t, t2, level, m);
    }
  }

  /** One surviving node's parent link after squeezing. */
  lemma SqueezedParent(t: Tree, t2: Tree, level: int, m: string)
    requires RootOk(t) && ParentsOk(t) && ChildrenOk(t) && 0 < level && LevelSqueezed(t, t2, level)
    requires m in t2.nodes && m != t2.root
    ensures ParentOf(t2, m) in t2.nodes
    ensures m in t2.nodes[ParentOf(t2, m)].children
    ensures t2.nodes[m].level == t2.nodes[ParentOf(t2, m)].level + 1
  {
    assert SqueezedEntry(t, t2, level, m);
    var p := ParentOf(t, m);
    var k := t.nodes[m].level;
    if k == level + 1 {
      var g := ParentOf(t, p);
      assert p != t.root;
      assert g in t2.nodes;
      assert SqueezedEntry(t, t2, level, g);
      assert m in Grandchildren(t, g);
    } else {
      assert p in t2.nodes;
      assert SqueezedEntry(t, t2, level, p);
    }
  }

  lemma SqueezedChildren(t: Tree, t2: Tree, level: int)
    requires RootOk(t) && NamesOk(t) && ParentsOk(t) && ChildrenOk(t) && 0 < level && LevelSqueezed(t, t2, level)
    ensures ChildrenOk(t2)
  {
    forall m, x | m in t2.nodes && x in t2.nodes[m].children
      ensures x in t2.nodes && ParentOf(t2, x) == m
    {
      SqueezedChild(t, t2, level, m, x);
    }
  }

  /** One child link after squeezing. */
  lemma SqueezedChild(t: Tree, t2: Tree, level: int, m: string, x: string)
    requires RootOk(t) && NamesOk(t) && ParentsOk(t) && ChildrenOk(t) && 0 < level && LevelSqueezed(t, t2, level)
    requires m in t2.nodes && x in t2.nodes[m].children
    ensures x in t2.nodes && ParentOf(t2, x) == m
  {
    assert SqueezedEntry(t, t2, level, m);
    if t.nodes[m].level == level - 1 {
      var c :| c in t.nodes[m].children && c in t.nodes && x in t.nodes[c].children;
      assert ParentOf(t, c) == m && ParentOf(t, x) == c;
      assert c != t.root && x != t.root;
      assert x in t2.nodes;
      assert SqueezedEntry(t, t2, level, x);
    } else {
      assert ParentOf(t, x) == m;
      assert x != t.root;
      assert x in t2.nodes;
      assert SqueezedEntry(t, t2, level, x);
    }
  }

  lemma SqueezedIndex(t: Tree, t2: Tree, level: int)
    requires LevelIndexOk(t) && LevelsOk(t) && 0 < level < |t.levels| && LevelSqueezed(t, t2, level)
    ensures LevelIndexOk(t2)
  {
    forall m | m in t2.nodes
      ensures t2.nodes[m].level in t2.levels && m in t2.levels[t2.nodes[m].level]
    {
      assert SqueezedEntry(t, t2, level, m);
      assert t.nodes[m].level in t.levels;
    }
    forall l, n | l in t2.levels && n in t2.levels[l]
      ensures n in t2.nodes && t2.nodes[n].level == l
    {
      assert SqueezedEntry(t, t2, level, n) by {
        if l < level {
          assert n in t.levels[l];
        } else {
          assert n in t.levels[l + 1];
        }
      }
    }
  }

  lemma SqueezedLevels(t: Tree, t2: Tree, level: int)
    requires LevelsOk(t) && 0 < level < |t.levels| && LevelSqueezed(t, t2, level)
    ensures LevelsOk(t2) && |t2.levels| == |t.levels| - 1
  {
    StringTreeEdit.IntervalSize(t2.levels.Keys, |t.levels| - 1);
  }

  /** Squeezing a level keeps the invariant. */
  lemma SqueezedWellformed(t: Tree, level: int)
    requires Wellformed(t) && 0 < level < |t.levels|
    ensures Wellformed(Squeezed(t, level))
  {
    var t2 := Squeezed(t, level);
    SqueezedEffect(t, level);
    SqueezedRoot(t, t2, level);
    SqueezedParents(t, t2, level);
    SqueezedChildren(t, t2, level);
    SqueezedIndex(t, t2, level);
    SqueezedLevels(t, t2, level);
  }

  /** Exactly the nodes of the squeezed level leave. */
  lemma SqueezedKeys(t: Tree, t2: Tree, level: int)
    requires LevelIndexOk(t) && 0 < level && level in t.levels && LevelSqueezed(t, t2, level)
    ensures t2.nodes.Keys == t.nodes.Keys - t.levels[level]
  {
    forall m
      ensures m in t2.nodes <==> m in t.nodes - t.levels[level]
    {
      if m in t.nodes {
        assert t.nodes[m].level in t.levels;
      }
    }
  }

  /**
   * `RemoveLevel` keeps the invariant. On a level that exists, exactly that
   * level's nodes leave the tree and the maximum level drops by one.
   */
  lemma RemoveLevelWellformed(t: Tree, level: int)
    requires Wellformed(t) && RemoveLevel(t, level).Ok?
    ensures Wellformed(RemoveLevel(t, level).value)
    ensures 0 < level <= GetMaxLevel(t) ==>
      RemoveLevel(t, level).value.nodes.Keys == t.nodes.Keys - t.levels[level]
      && GetMaxLevel(RemoveLevel(t, level).value) == GetMaxLevel(t) - 1
  {
    if 0 < level <= GetMaxLevel(t) {
      var t2 := Squeezed(t, level);
      assert RemoveLevel(t, level) == Ok(t2);
      SqueezedWellformed(t, level);
      SqueezedEffect(t, level);
      SqueezedKeys(t, t2, level);
      SqueezedLevels(t, t2, level);
    }
  }
}
