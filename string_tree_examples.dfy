/**
 * The example trees drawn in StringTree.hpp, worked through the model:
 * the context query of `GetNodesByLevel` and the squeeze of `RemoveLevel`.
 */
module StringTreeExamples {
  import opened Wrappers
  import opened StringTreeState
  import opened StringTreeRemoveLevel

  /** `StringTree {"a", "{a, b, c} {b, d} {c, e, f, g}"}`. */
  function ContextTree(): Tree
  {
    Tree("a",
         map["a" := TreeNode(0, {"b", "c"}, NullNodeName),
             "b" := TreeNode(1, {"d"}, "a"),
             "c" := TreeNode(1, {"e", "f", "g"}, "a"),
             "d" := TreeNode(2, {}, "b"),
             "e" := TreeNode(2, {}, "c"),
             "f" := TreeNode(2, {}, "c"),
             "g" := TreeNode(2, {}, "c")],
         map[0 := {"a"}, 1 := {"b", "c"}, 2 := {"d", "e", "f", "g"}])
  }

  /** Relative to c: its ancestor a at level 0, c itself at level 1, its children at level 2. */
  lemma ContextExample()
    ensures GetContextNodesByLevel(ContextTree(), "c", 0) == Ok({"a"})
    ensures GetContextNodesByLevel(ContextTree(), "c", 1) == Ok({"c"})
    ensures GetContextNodesByLevel(ContextTree(), "c", 2) == Ok({"e", "f", "g"})
  {
    var t := ContextTree();
    assert GetAncestor(t, "c", 1) == Ok("a");
    BelowC();
  }

  /** The level-2 nodes one step below c. */
  lemma BelowC()
    ensures GetContextNodesByLevel(ContextTree(), "c", 2) == Ok({"e", "f", "g"})
  {
    var t := ContextTree();
    assert "c" in t.nodes && t.nodes["c"].level == 1;
    assert GetNodesByLevel(t, 2) == Ok({"d", "e", "f", "g"});
    var r := GetContextNodesByLevel(t, "c", 2);
    assert GetAncestor(t, "d", 1) == Ok("b");
    assert GetAncestor(t, "e", 1) == Ok("c");
    assert GetAncestor(t, "f", 1) == Ok("c");
    assert GetAncestor(t, "g", 1) == Ok("c");
    assert r.Ok?;
    assert "e" in r.value && "f" in r.value && "g" in r.value;
    assert "d" !in r.value;
    forall n | n in r.value ensures n in {"e", "f", "g"} {
      assert n in {"d", "e", "f", "g"};
    }
    assert r.value == {"e", "f", "g"};
  }

  /** The tree of the `RemoveLevel` picture: e, f, g under c, d under e, h under g. */
  function SqueezeTree(): Tree
  {
    Tree("a",
         map["a" := TreeNode(0, {"b", "c"}, NullNodeName),
             "b" := TreeNode(1, {}, "a"),
             "c" := TreeNode(1, {"e", "f", "g"}, "a"),
             "e" := TreeNode(2, {"d"}, "c"),
             "f" := TreeNode(2, {}, "c"),
             "g" := TreeNode(2, {"h"}, "c"),
             "d" := TreeNode(3, {}, "e"),
             "h" := TreeNode(3, {}, "g")],
         map[0 := {"a"}, 1 := {"b", "c"}, 2 := {"e", "f", "g"}, 3 := {"d", "h"}])
  }

  /** The picture after `RemoveLevel(2)`: d and h under c, one level up. */
  function SqueezedTree(): Tree
  {
    Tree("a",
         map["a" := TreeNode(0, {"b", "c"}, NullNodeName),
             "b" := TreeNode(1, {}, "a"),
             "c" := TreeNode(1, {"d", "h"}, "a"),
             "d" := TreeNode(2, {}, "c"),
             "h" := TreeNode(2, {}, "c")],
         map[0 := {"a"}, 1 := {"b", "c"}, 2 := {"d", "h"}])
  }

  const Names: set<string> := {"a", "b", "c", "d", "e", "f", "g", "h"}

  /** The picture's names and levels. */
  lemma SqueezeTreeKeys()
    ensures SqueezeTree().nodes.Keys == Names
    ensures SqueezeTree().levels.Keys == {0, 1, 2, 3}
  {
  }

  // The picture satisfies the invariant, one aspect and one node at a time.

  lemma SqueezeTreeParents()
    ensures ParentsOk(SqueezeTree())
  {
    var t := SqueezeTree();
    forall n | n in t.nodes && n != t.root
      ensures ParentOf(t, n) in t.nodes
      ensures n in t.nodes[ParentOf(t, n)].children
      ensures t.nodes[n].level == t.nodes[ParentOf(t, n)].level + 1
    {
      ParentInSqueezeTree(n);
    }
  }

  lemma ParentInSqueezeTree(n: string)
    requires n in SqueezeTree().nodes && n != "a"
    ensures var t := SqueezeTree(); var p := ParentOf(t, n);
      p in t.nodes && n in t.nodes[p].children && t.nodes[n].level == t.nodes[p].level + 1
  {
    SqueezeTreeKeys();
    assert n in Names;
    if n == "b" || n == "c" {
    } else if n == "e" || n == "f" || n == "g" {
    } else {
      assert n == "d" || n == "h";
    }
  }

  lemma SqueezeTreeChildren()
    ensures ChildrenOk(SqueezeTree())
  {
    var t := SqueezeTree();
    forall n, c | n in t.nodes && c in t.nodes[n].children
      ensures c in t.nodes && ParentOf(t, c) == n
    {
      ChildrenOfSqueezeTree(n);
    }
  }

  lemma ChildrenOfSqueezeTree(n: string)
    requires n in SqueezeTree().nodes
    ensures forall c :: c in SqueezeTree().nodes[n].children ==>
      c in SqueezeTree().nodes && ParentOf(SqueezeTree(), c) == n
  {
    var t := SqueezeTree();
    assert n in Names by { SqueezeTreeKeys(); }
    if n == "a" {
      assert t.nodes[n].children == {"b", "c"};
    } else if n == "c" {
      assert t.nodes[n].children == {"e", "f", "g"};
    } else if n == "e" {
      assert t.nodes[n].children == {"d"};
    } else if n == "g" {
      assert t.nodes[n].children == {"h"};
    } else {
      assert n == "b" || n == "d" || n == "f" || n == "h";
      assert t.nodes[n].children == {};
    }
  }

  lemma SqueezeTreeIndex()
    ensures LevelIndexOk(SqueezeTree())
  {
    var t := SqueezeTree();
    forall n | n in t.nodes
      ensures t.nodes[n].level in t.levels && n in t.levels[t.nodes[n].level]
    {
      IndexedInSqueezeTree(n);
    }
    forall l, n | l in t.levels && n in t.levels[l]
      ensures n in t.nodes && t.nodes[n].level == l
    {
      BucketOfSqueezeTree(l, n);
    }
  }

  lemma IndexedInSqueezeTree(n: string)
    requires n in SqueezeTree().nodes
    ensures var t := SqueezeTree(); t.nodes[n].level in t.levels && n in t.levels[t.nodes[n].level]
  {
    SqueezeTreeKeys();
    assert n in Names;
    if n == "a" || n == "b" || n == "c" {
    } else if n == "e" || n == "f" || n == "g" {
    } else {
      assert n == "d" || n == "h";
    }
  }

  lemma BucketOfSqueezeTree(l: int, n: string)
    requires l in SqueezeTree().levels && n in SqueezeTree().levels[l]
    ensures n in SqueezeTree().nodes && SqueezeTree().nodes[n].level == l
  {
    var t := SqueezeTree();
    SqueezeTreeKeys();
    if l == 0 {
      assert n == "a";
    } else if l == 1 {
      assert n == "b" || n == "c";
    } else if l == 2 {
      assert n == "e" || n == "f" || n == "g";
    } else {
      assert l == 3;
      assert n == "d" || n == "h";
    }
  }

  lemma SqueezeTreeLevels()
    ensures LevelsOk(SqueezeTree())
  {
    var t := SqueezeTree();
    SqueezeTreeKeys();
    LevelCount();
    forall l ensures l in t.levels <==> 0 <= l < |t.levels| {
      assert l in t.levels <==> l in {0, 1, 2, 3};
    }
    forall l | l in t.levels ensures t.levels[l] != {} {
      assert l in {0, 1, 2, 3};
    }
  }

  lemma SqueezeTreeWellformed()
    ensures Wellformed(SqueezeTree())
  {
    SqueezeTreeParents();
    SqueezeTreeChildren();
    SqueezeTreeIndex();
    SqueezeTreeLevels();
  }

  /** `RemoveLevel(2)` squeezes e, f and g out; c adopts d and h, which move up to level 2. */
  lemma RemoveLevelExample()
    ensures Wellformed(SqueezeTree()) && RemoveLevel(SqueezeTree(), 2) == Ok(SqueezedTree())
  {
    var t := SqueezeTree();
    SqueezeTreeWellformed();
    SqueezeTreeKeys();
    assert GetMaxLevel(t) == 3;
    SqueezedNodes();
    SqueezedLevelMap();
  }

  // The squeeze, entry by entry and bucket by bucket.

  /** The surviving entries are those of the squeezed picture. */
  lemma SqueezedNodes()
    requires Wellformed(SqueezeTree())
    ensures 2 < |SqueezeTree().levels| && Squeezed(SqueezeTree(), 2).nodes == SqueezedTree().nodes
  {
    LevelCount();
    SqueezedKeys();
    KeepsA();
    KeepsB();
    AdoptsC();
    MovesUp("d", "e");
    MovesUp("h", "g");
    NodesOfSqueezedTree(Squeezed(SqueezeTree(), 2).nodes);
  }

  /** The entries of the squeezed picture, key by key. */
  lemma NodesOfSqueezedTree(n2: map<string, TreeNode>)
    requires n2.Keys == {"a", "b", "c", "d", "h"}
    requires n2["a"] == TreeNode(0, {"b", "c"}, NullNodeName) && n2["b"] == TreeNode(1, {}, "a")
    requires n2["c"] == TreeNode(1, {"d", "h"}, "a")
    requires n2["d"] == TreeNode(2, {}, "c") && n2["h"] == TreeNode(2, {}, "c")
    ensures n2 == SqueezedTree().nodes
  {
    var e := SqueezedTree().nodes;
    forall m | m in n2 ensures n2[m] == e[m] {
      assert m == "a" || m == "b" || m == "c" || m == "d" || m == "h";
    }
    MapsAgree(n2, e);
  }

  /** Two maps with the same keys and the same value at each key are equal. */
  lemma MapsAgree<K, V>(a: map<K, V>, b: map<K, V>)
    requires a.Keys == b.Keys && forall k | k in a :: a[k] == b[k]
    ensures a == b
  {
  }

  /** The picture has four levels. */
  lemma LevelCount()
    ensures |SqueezeTree().levels| == 4
  {
    SqueezeTreeKeys();
    assert |SqueezeTree().levels.Keys| == 4;
  }

  /** The survivors are the nodes off level 2. */
  lemma SqueezedKeys()
    requires Wellformed(SqueezeTree())
    ensures 2 < |SqueezeTree().levels| && Squeezed(SqueezeTree(), 2).nodes.Keys == {"a", "b", "c", "d", "h"}
  {
    var t := SqueezeTree();
    SqueezeTreeKeys();
    LevelCount();
    var n2 := Squeezed(t, 2).nodes;
    var e: set<string> := {"a", "b", "c", "d", "h"};
    forall m ensures m in n2 <==> m in e {
      if m in t.nodes {
        assert m in Names;
      }
    }
  }

  /** A node off the squeezed level survives with its squeezed entry. */
  lemma Survives(t: Tree, m: string)
    requires Wellformed(t) && 2 < |t.levels| && m in t.nodes && t.nodes[m].level != 2
    ensures m in Squeezed(t, 2).nodes && Squeezed(t, 2).nodes[m] == SqueezedNode(t, 2, m)
  {
  }

  /** The root keeps its entry. */
  lemma KeepsA()
    requires Wellformed(SqueezeTree()) && 2 < |SqueezeTree().levels|
    ensures "a" in Squeezed(SqueezeTree(), 2).nodes
      && Squeezed(SqueezeTree(), 2).nodes["a"] == TreeNode(0, {"b", "c"}, NullNodeName)
  {
    var t := SqueezeTree();
    assert t.nodes["a"] == TreeNode(0, {"b", "c"}, NullNodeName);
    Survives(t, "a");
  }

  /** b, one level above the squeezed one, adopts its (no) grandchildren. */
  lemma KeepsB()
    requires Wellformed(SqueezeTree()) && 2 < |SqueezeTree().levels|
    ensures "b" in Squeezed(SqueezeTree(), 2).nodes
      && Squeezed(SqueezeTree(), 2).nodes["b"] == TreeNode(1, {}, "a")
  {
    var t := SqueezeTree();
    assert t.nodes["b"] == TreeNode(1, {}, "a");
    Survives(t, "b");
    assert SqueezedNode(t, 2, "b").children == {};
  }

  /** c, one level above the squeezed one, adopts its grandchildren d and h. */
  lemma AdoptsC()
    requires Wellformed(SqueezeTree()) && 2 < |SqueezeTree().levels|
    ensures "c" in Squeezed(SqueezeTree(), 2).nodes
      && Squeezed(SqueezeTree(), 2).nodes["c"] == TreeNode(1, {"d", "h"}, "a")
  {
    var t := SqueezeTree();
    assert t.nodes["c"] == TreeNode(1, {"e", "f", "g"}, "a");
    Survives(t, "c");
    AdoptedByC();
  }

  /** d and h, one level below the squeezed one, move up and take their parent's parent c. */
  lemma MovesUp(m: string, p: string)
    requires Wellformed(SqueezeTree()) && 2 < |SqueezeTree().levels|
    requires (m, p) == ("d", "e") || (m, p) == ("h", "g")
    ensures m in Squeezed(SqueezeTree(), 2).nodes
      && Squeezed(SqueezeTree(), 2).nodes[m] == TreeNode(2, {}, "c")
  {
    var t := SqueezeTree();
    assert t.nodes[m] == TreeNode(3, {}, p);
    assert t.nodes[p].parent == "c";
    Survives(t, m);
  }

  /** c's children's children: d under e and h under g. */
  lemma AdoptedByC()
    ensures (set c, g | c in SqueezeTree().nodes["c"].children && c in SqueezeTree().nodes
               && g in SqueezeTree().nodes[c].children :: g) == {"d", "h"}
  {
    var t := SqueezeTree();
    var s := set c, g | c in t.nodes["c"].children && c in t.nodes && g in t.nodes[c].children :: g;
    assert t.nodes["c"].children == {"e", "f", "g"};
    assert "d" in t.nodes["e"].children && "h" in t.nodes["g"].children;
    assert "d" in s && "h" in s;
    forall g | g in s ensures g in {"d", "h"} {
      var c :| c in {"e", "f", "g"} && c in t.nodes && g in t.nodes[c].children;
      assert c == "e" || c == "f" || c == "g";
    }
    assert s == {"d", "h"};
  }

  /** The level map is that of the squeezed picture. */
  lemma SqueezedLevelMap()
    requires Wellformed(SqueezeTree())
    ensures 2 < |SqueezeTree().levels| && Squeezed(SqueezeTree(), 2).levels == SqueezedTree().levels
  {
    LevelCount();
    SqueezedLevelKeys();
    SqueezedBuckets();
    LevelsOfSqueezedTree(Squeezed(SqueezeTree(), 2).levels);
  }

  /** Four levels become three. */
  lemma SqueezedLevelKeys()
    requires Wellformed(SqueezeTree())
    ensures 2 < |SqueezeTree().levels| && Squeezed(SqueezeTree(), 2).levels.Keys == {0, 1, 2}
  {
    LevelCount();
    var l2 := Squeezed(SqueezeTree(), 2).levels;
    forall l ensures l in l2 <==> l in {0, 1, 2} {
      assert l in l2 <==> 0 <= l < 3;
    }
  }

  /** The buckets of the squeezed picture, level by level. */
  lemma LevelsOfSqueezedTree(l2: map<int, set<string>>)
    requires l2.Keys == {0, 1, 2}
    requires l2[0] == {"a"} && l2[1] == {"b", "c"} && l2[2] == {"d", "h"}
    ensures l2 == SqueezedTree().levels
  {
    var e := SqueezedTree().levels;
    forall l | l in l2 ensures l2[l] == e[l] {
      assert l == 0 || l == 1 || l == 2;
    }
    MapsAgree(l2, e);
  }

  /** Buckets 0 and 1 stay, bucket 2 is the old bucket 3. */
  lemma SqueezedBuckets()
    requires Wellformed(SqueezeTree())
    ensures 2 < |SqueezeTree().levels|
    ensures var l2 := Squeezed(SqueezeTree(), 2).levels;
      0 in l2 && 1 in l2 && 2 in l2 && l2[0] == {"a"} && l2[1] == {"b", "c"} && l2[2] == {"d", "h"}
  {
    LevelCount();
  }
}
