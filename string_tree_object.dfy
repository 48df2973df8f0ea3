/**
 * `ies::StringTree` as an object (StringTree.cpp): the root name, `mNodes`
 * and `mLevelToNodesMap` are fields that the mutators update in place, and
 * each loop of the source is a loop here. Every method is proved against the
 * value model of the same operation (StringTreeEdit, StringTreeRename,
 * StringTreeRemoveLevel, StringTreeText), where the properties are proved.
 * A `std::set` is walked in ascending order by taking its least element
 * each time, which is how `StringOrder.Sorted` lists it.
 */
module StringTreeObject {
  import opened Wrappers
  import opened StringTreeState
  import opened StringOrder
  import StringTreeEdit
  import StringTreeRename
  import StringTreeRemoveLevel
  import StringTreeText

  class StringTree {
    /** `mRootName` */
    var root: string
    /** `mNodes` */
    var nodes: map<string, TreeNode>
    /** `mLevelToNodesMap` */
    var levels: map<int, set<string>>

    /** The state as a value. */
    function Value(): Tree
      reads this
    {
      Tree(root, nodes, levels)
    }

    ghost predicate Valid()
      reads this
    {
      Wellformed(Value())
    }

    /** `StringTree(rootName)` for a non-empty name; `New` is the one that can fail. */
    constructor (rootName: string)
      requires rootName != NullNodeName
      ensures Valid() && Value() == Singleton(rootName)
    {
      root := rootName;
      nodes := map[rootName := TreeNode(0, {}, NullNodeName)];
      levels := map[0 := {rootName}];
      SingletonWellformed(rootName);
    }

    /**
     * `CreateChildNode(p, c)`: the checks come before any change, so a
     * failure leaves the tree as it was.
     */
    method CreateChildNode(p: string, c: string) returns (o: Outcome<TreeError>)
      modifies this
      ensures match StringTreeEdit.CreateChild(old(Value()), p, c)
        case Ok(t2) => o == Pass && Value() == t2
        case Err(e) => o == Fail(e) && Value() == old(Value())
      ensures old(Valid()) ==> Valid()
    {
      if c == NullNodeName {
        return Fail(EmptyChild);
      }
      if p !in nodes {
        return Fail(NoSuchNode);
      }
      if c in nodes {
        return Fail(NodeExists);
      }
      ghost var t := Value();
      var node := nodes[p];
      nodes := nodes[p := node.(children := node.children + {c})];
      var level := node.level + 1;
      nodes := nodes[c := TreeNode(level, {}, p)];
      var bucket := if level in levels then levels[level] else {};
      levels := levels[level := bucket + {c}];
      o := Pass;
      if Wellformed(t) {
        StringTreeEdit.CreateChildWellformed(t, p, c);
      }
    }

    /**
     * `RenameNode(from, to)` as the source does it, step by step: a
     * `std::map::at` that finds nothing throws with the steps before it
     * done. On a well-formed tree only the checks can fail, and a rename to
     * a non-empty name keeps the tree well formed.
     */
    method RenameNode(from: string, to: string) returns (o: Outcome<TreeError>)
      modifies this
      ensures (Value(), o) == StringTreeRename.RenameNodeAsWritten(old(Value()), from, to)
      ensures old(Valid()) && to != NullNodeName ==> Valid()
    {
      RenameKeepsValid(Value(), from, to);
      if from !in nodes {
        return Fail(NoSuchNode);
      }
      if to in nodes {
        return Fail(NodeExists);
      }
      if from == root {
        root := to;
      }
      var node := nodes[from];
      nodes := (nodes - {from})[to := node];
      if node.level !in levels {
        return Fail(OutOfRange);
      }
      levels := levels[node.level := levels[node.level] - {from} + {to}];
      if node.parent != NullNodeName {
        if node.parent !in nodes {
          return Fail(OutOfRange);
        }
        nodes := nodes[node.parent := nodes[node.parent].(children := nodes[node.parent].children - {from} + {to})];
      }
      ghost var (root1, nodes2, levels1) := (root, nodes, levels);
      var rest := node.children;
      while rest != {}
        invariant root == root1 && levels == levels1
        invariant StringTreeRename.Reparent(nodes, Sorted(rest), to) == StringTreeRename.Reparent(nodes2, Sorted(node.children), to)
        decreases |rest|
      {
        LeastExists(rest);
        var c :| c in rest && IsLeast(c, rest);
        SortedStep(c, rest);
        assert Sorted(rest)[0] == c && Sorted(rest)[1..] == Sorted(rest - {c});
        if c !in nodes {
          return Fail(OutOfRange);
        }
        nodes := nodes[c := nodes[c].(parent := to)];
        rest := rest - {c};
      }
      return Pass;
    }

    /** `RenameNodes(list)`: each rename in turn, stopping at the first that throws. */
    method RenameNodes(renames: seq<(string, string)>) returns (o: Outcome<TreeError>)
      modifies this
      ensures (Value(), o) == StringTreeRename.RenameAllAsWritten(old(Value()), renames)
    {
      var i := 0;
      o := Pass;
      while i < |renames|
        invariant 0 <= i <= |renames| && o == Pass
        invariant StringTreeRename.RenameAllAsWritten(Value(), renames[i..])
          == StringTreeRename.RenameAllAsWritten(old(Value()), renames)
        decreases |renames| - i
      {
        StringTreeRename.RenameAllAsWrittenStep(Value(), renames[i..]);
        o := RenameNode(renames[i].0, renames[i].1);
        if o.Fail? {
          return;
        }
        assert renames[i..][1..] == renames[i + 1..];
        i := i + 1;
      }
      assert renames[i..] == [];
    }

    /**
     * `RemoveNode(n)`: nothing for an unknown name, a throw for the root;
     * otherwise n leaves its parent's children, every node of n's subtree
     * leaves the node map and its level's bucket, and the empty buckets at
     * the top are dropped from the highest level down.
     */
    method RemoveNode(n: string) returns (o: Outcome<TreeError>)
      requires Valid()
      modifies this
      ensures match StringTreeEdit.RemoveNode(old(Value()), n)
        case Ok(t2) => o == Pass && Value() == t2
        case Err(e) => o == Fail(e) && Value() == old(Value())
      ensures Valid()
    {
      if n !in nodes {
        return Pass;
      }
      if n == root {
        return Fail(RootRemoval);
      }
      ghost var t := Value();
      StringTreeEdit.RemoveNodeWellformed(t, n);
      StringTreeEdit.RemoveNodeEffect(t, n);
      ParentNodeFacts(t, n);
      var sub := SubtreeNodes(Value(), n);
      StringTreeEdit.SubtreeShapeHolds(t, n);
      var p := nodes[n].parent;
      nodes := nodes[p := nodes[p].(children := nodes[p].children - {n})];
      UnlinkedNone(t, p, n);
      RemaindersNone(t);
      EraseSubtree(t, p, n, sub);
      assert levels.Keys == t.levels.Keys;
      DropEmptyLevels();
      return Pass;
    }

    /** The erase loop of `RemoveNode`: every name of `sub` leaves the node map and its level's bucket. */
    method EraseSubtree(ghost t: Tree, p: string, n: string, sub: set<string>)
      requires LevelIndexOk(t) && p in t.nodes && p !in sub && sub <= t.nodes.Keys
      requires nodes == Unlinked(t, p, n, {}) && levels == StringTreeEdit.Remainders(t, {})
      modifies this
      ensures root == old(root)
      ensures nodes == Unlinked(t, p, n, sub) && levels == StringTreeEdit.Remainders(t, sub)
    {
      var ns, ls := nodes, levels;
      var rest := sub;
      assert sub - rest == {};
      while rest != {}
        invariant rest <= sub && root == old(root)
        invariant ns == Unlinked(t, p, n, sub - rest)
        invariant ls == StringTreeEdit.Remainders(t, sub - rest)
        decreases |rest|
      {
        var m :| m in rest;
        var level := ns[m].level;
        ns := ns - {m};
        RemaindersStep(t, sub - rest, m);
        ls := ls[level := ls[level] - {m}];
        UnlinkedStep(t, p, n, sub - rest, m);
        assert sub - (rest - {m}) == (sub - rest) + {m};
        rest := rest - {m};
      }
      assert sub - rest == sub;
      nodes, levels := ns, ls;
    }

    /** The shrink loop of `RemoveNode`: from the highest level down, an empty bucket is dropped until one is not. */
    method DropEmptyLevels()
      modifies this
      ensures root == old(root) && nodes == old(nodes)
      ensures levels == StringTreeEdit.Prune(old(levels), |old(levels)|)
    {
      var k := |levels|;
      while k > 0 && k - 1 in levels && levels[k - 1] == {}
        invariant root == old(root) && nodes == old(nodes)
        invariant StringTreeEdit.Prune(levels, k) == StringTreeEdit.Prune(old(levels), |old(levels)|)
        decreases k
      {
        levels := levels - {k - 1};
        k := k - 1;
      }
    }

    /**
     * `RemoveLevel(level)`: a throw for level 0 and for a negative level, nothing
     * above the maximum; otherwise that level's nodes go, their children move
     * to their grandparents, and every lower level moves up one.
     */
    method RemoveLevel(level: int) returns (o: Outcome<TreeError>)
      requires Valid()
      modifies this
      ensures match StringTreeRemoveLevel.RemoveLevel(old(Value()), level)
        case Ok(t2) => o == Pass && Value() == t2
        case Err(e) => o == Fail(e) && Value() == old(Value())
      ensures Valid()
    {
      var r := StringTreeRemoveLevel.RemoveLevel(Value(), level);
      if r.Err? {
        return Fail(r.error);
      }
      StringTreeRemoveLevel.RemoveLevelWellformed(Value(), level);
      root, nodes, levels := r.value.root, r.value.nodes, r.value.levels;
      return Pass;
    }
  }

  /** The node map while the subtree is erased: n unlinked from p, and the names of `gone` erased. */
  function Unlinked(t: Tree, p: string, n: string, gone: set<string>): map<string, TreeNode>
    requires p in t.nodes
  {
    map m | m in t.nodes && m !in gone ::
      if m == p then t.nodes[p].(children := t.nodes[p].children - {n}) else t.nodes[m]
  }

  lemma UnlinkedNone(t: Tree, p: string, n: string)
    requires p in t.nodes
    ensures Unlinked(t, p, n, {}) == t.nodes[p := t.nodes[p].(children := t.nodes[p].children - {n})]
  {
  }

  lemma UnlinkedStep(t: Tree, p: string, n: string, gone: set<string>, m: string)
    requires p in t.nodes
    ensures Unlinked(t, p, n, gone + {m}) == Unlinked(t, p, n, gone) - {m}
  {
  }

  lemma RemaindersNone(t: Tree)
    ensures StringTreeEdit.Remainders(t, {}) == t.levels
  {
    forall l | l in t.levels
      ensures t.levels[l] - {} == t.levels[l]
    {
    }
  }

  /** Erasing m from its own level's bucket is erasing it from every bucket. */
  lemma RemaindersStep(t: Tree, gone: set<string>, m: string)
    requires LevelIndexOk(t) && m in t.nodes
    ensures t.nodes[m].level in StringTreeEdit.Remainders(t, gone)
    ensures StringTreeEdit.Remainders(t, gone + {m}) ==
      var r := StringTreeEdit.Remainders(t, gone);
      r[t.nodes[m].level := r[t.nodes[m].level] - {m}]
  {
    var r := StringTreeEdit.Remainders(t, gone);
    var r2 := StringTreeEdit.Remainders(t, gone + {m});
    var level := t.nodes[m].level;
    forall l | l in t.levels
      ensures r2[l] == r[level := r[level] - {m}][l]
    {
      if l != level {
        assert m !in t.levels[l];
      }
    }
  }

  /** A well-formed tree renamed to a non-empty name is well formed. */
  lemma RenameKeepsValid(t: Tree, from: string, to: string)
    ensures Wellformed(t) && to != NullNodeName ==> Wellformed(StringTreeRename.RenameNodeAsWritten(t, from, to).0)
  {
    if Wellformed(t) && to != NullNodeName {
      StringTreeRename.RenameNodeAsWrittenWellformed(t, from, to);
      if from in t.nodes && to !in t.nodes {
        StringTreeRename.RenameWellformed(t, from, to);
      }
    }
  }

  /** `StringTree(rootName)`: an empty root name throws. */
  method New(rootName: string) returns (tree: StringTree?, o: Outcome<TreeError>)
    ensures rootName == NullNodeName ==> tree == null && o == Fail(EmptyRoot)
    ensures rootName != NullNodeName ==>
      o == Pass && tree != null && fresh(tree) && tree.Valid() && tree.Value() == Singleton(rootName)
  {
    if rootName == NullNodeName {
      return null, Fail(EmptyRoot);
    }
    tree := new StringTree(rootName);
    o := Pass;
  }

  /**
   * `ToString(tree, levelAnnotated)`: for each level from 0 up to but not
   * including the maximum, its header and the groups of its nodes with
   * children, in ascending order. A tree of the root alone has an empty
   * level range, which throws.
   */
  method ToString(tree: StringTree, annotated: bool) returns (r: Result<string, TreeError>)
    requires tree.Valid()
    ensures r == StringTreeText.ToString(tree.Value(), annotated)
  {
    var t := tree.Value();
    var maxLevel := GetMaxLevel(t);
    if maxLevel == 0 {
      return Err(InvalidRange);
    }
    var spec := WriteLevels(t, maxLevel, annotated);
    r := Ok(spec);
  }

  /** The text of levels 0 to k - 1, one level after another. */
  method WriteLevels(t: Tree, k: int, annotated: bool) returns (spec: string)
    requires LevelsOk(t) && LevelIndexOk(t) && 0 <= k < |t.levels|
    ensures spec == StringTreeText.Canonical(t, k, annotated)
  {
    spec := "";
    var level := 0;
    while level < k
      invariant 0 <= level <= k
      invariant spec == StringTreeText.Canonical(t, level, annotated)
    {
      // The source throws on an empty bucket here; a well-formed tree has none.
      BucketInTree(t, level);
      var groups := WriteGroups(t, t.levels[level]);
      var text := StringTreeText.LevelHeader(level, annotated) + groups;
      assert text == StringTreeText.LevelText(t, level, annotated);
      spec := spec + text;
      level := level + 1;
    }
  }

  lemma BucketInTree(t: Tree, level: int)
    requires LevelIndexOk(t) && level in t.levels
    ensures forall n :: n in t.levels[level] ==> n in t.nodes
  {
  }

  /** The groups of the nodes of one level, in ascending order, a space between two. */
  method WriteGroups(t: Tree, bucket: set<string>) returns (text: string)
    requires forall n :: n in bucket ==> n in t.nodes
    ensures text == StringTreeText.Groups(t, Sorted(bucket), true)
  {
    var rest := bucket;
    var first := true;
    text := "";
    while rest != {}
      invariant rest <= bucket
      invariant text + StringTreeText.Groups(t, Sorted(rest), first) == StringTreeText.Groups(t, Sorted(bucket), true)
      decreases |rest|
    {
      LeastExists(rest);
      var n :| n in rest && IsLeast(n, rest);
      GroupsStep(t, n, rest, first);
      if t.nodes[n].children != {} {
        var g := WriteGroup(t, n);
        var piece := (if first then "" else " ") + g;
        ghost var later := StringTreeText.Groups(t, Sorted(rest - {n}), false);
        Associative(text, piece, later);
        text := text + piece;
        first := false;
      }
      rest := rest - {n};
    }
  }

  lemma Associative(a: string, b: string, c: string)
    ensures (a + b) + c == a + (b + c)
  {
  }

  /** Writing the least node of `rest` is one step of `Groups`. */
  lemma GroupsStep(t: Tree, n: string, rest: set<string>, first: bool)
    requires IsLeast(n, rest) && n in t.nodes
    ensures StringTreeText.Groups(t, Sorted(rest), first) ==
      if t.nodes[n].children == {} then StringTreeText.Groups(t, Sorted(rest - {n}), first)
      else (if first then "" else " ") + StringTreeText.Group(t, n) + StringTreeText.Groups(t, Sorted(rest - {n}), false)
  {
    SortedStep(n, rest);
    assert Sorted(rest)[0] == n && Sorted(rest)[1..] == Sorted(rest - {n});
  }

  /** One group: "{n, c1, c2}", the children in ascending order. */
  method WriteGroup(t: Tree, n: string) returns (g: string)
    requires n in t.nodes
    ensures g == StringTreeText.Group(t, n)
  {
    var children := t.nodes[n].children;
    var rest := children;
    g := "{" + n;
    while rest != {}
      invariant g + StringTreeText.ChildList(Sorted(rest)) == "{" + n + StringTreeText.ChildList(Sorted(children))
      decreases |rest|
    {
      LeastExists(rest);
      var c :| c in rest && IsLeast(c, rest);
      ChildListStep(c, rest);
      g := g + ", " + c;
      rest := rest - {c};
    }
    g := g + "}";
  }

  /** Writing the least child of `rest` is one step of `ChildList`. */
  lemma ChildListStep(c: string, rest: set<string>)
    requires IsLeast(c, rest)
    ensures StringTreeText.ChildList(Sorted(rest)) == ", " + c + StringTreeText.ChildList(Sorted(rest - {c}))
  {
    SortedStep(c, rest);
    assert Sorted(rest)[0] == c && Sorted(rest)[1..] == Sorted(rest - {c});
  }
}
