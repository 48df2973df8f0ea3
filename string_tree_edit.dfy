/**
 * The mutators of `ies::StringTree` as functions from the old tree value to
 * the new one (StringTree.cpp). Each is paired with the invariant it keeps:
 * a well-formed tree stays well-formed.
 */
module StringTreeEdit {
  import opened Wrappers
  import opened StringTreeState

  // CreateChildNode

  /**
   * `CreateChildNode(p, c)`: refuses an empty child name, an unknown parent
   * and a name already anywhere in the tree, in that order; otherwise `c`
   * joins `p`'s children, at `p`'s level plus one, and that level's bucket.
   */
  function CreateChild(t: Tree, p: string, c: string): (r: Result<Tree, TreeError>)
    ensures c == NullNodeName ==> r == Err(EmptyChild)
    ensures c != NullNodeName && p !in t.nodes ==> r == Err(NoSuchNode)
    ensures c != NullNodeName && p in t.nodes && c in t.nodes ==> r == Err(NodeExists)
    ensures r.Ok? <==> c != NullNodeName && p in t.nodes && c !in t.nodes
  {
    if c == NullNodeName then Err(EmptyChild)
    else if p !in t.nodes then Err(NoSuchNode)
    else if c in t.nodes then Err(NodeExists)
    else
      var node := t.nodes[p];
      var level := node.level + 1;
      var bucket := if level in t.levels then t.levels[level] else {};
      Ok(Tree(t.root,
              t.nodes[p := node.(children := node.children + {c})][c := TreeNode(level, {}, p)],
              t.levels[level := bucket + {c}]))
  }

  /** What adding `c` under `p` does to the root and the node map, entry by entry. */
  ghost predicate ChildAddedNodes(t: Tree, t2: Tree, p: string, c: string)
  {
    p in t.nodes && c !in t.nodes && c != NullNodeName
    && t2.root == t.root
    && t2.nodes.Keys == t.nodes.Keys + {c}
    && t2.nodes[c] == TreeNode(t.nodes[p].level + 1, {}, p)
    && t2.nodes[p] == t.nodes[p].(children := t.nodes[p].children + {c})
    && (forall n :: n in t.nodes && n != p ==> t2.nodes[n] == t.nodes[n])
  }

  /** What it does to the level map: `c` joins the bucket one below `p`'s level. */
  ghost predicate ChildAddedLevels(t: Tree, t2: Tree, p: string, c: string)
    requires p in t.nodes
  {
    var level := t.nodes[p].level + 1;
    t2.levels.Keys == t.levels.Keys + {level}
    && t2.levels[level] == (if level in t.levels then t.levels[level] else {}) + {c}
    && (forall l :: l in t.levels && l != level ==> t2.levels[l] == t.levels[l])
  }

  /** A successful `CreateChild` changes exactly the parent, the new child and one bucket. */
  lemma CreateChildEffect(t: Tree, p: string, c: string)
    requires CreateChild(t, p, c).Ok?
    ensures ChildAddedNodes(t, CreateChild(t, p, c).value, p, c)
    ensures ChildAddedLevels(t, CreateChild(t, p, c).value, p, c)
  {
  }

  lemma ChildAddedRoot(t: Tree, t2: Tree, p: string, c: string)
    requires RootOk(t) && NamesOk(t) && ChildAddedNodes(t, t2, p, c)
    ensures RootOk(t2) && NamesOk(t2)
  {
  }

  lemma ChildAddedParents(t: Tree, t2: Tree, p: string, c: string)
    requires ParentsOk(t) && ChildAddedNodes(t, t2, p, c)
    ensures ParentsOk(t2)
  {
    forall n | n in t2.nodes && n != t2.root
      ensures ParentOf(t2, n) in t2.nodes
      ensures n in t2.nodes[ParentOf(t2, n)].children
      ensures t2.nodes[n].level == t2.nodes[ParentOf(t2, n)].level + 1
    {
      if n != c {
        var q := ParentOf(t, n);
        assert ParentOf(t2, n) == q;
      }
    }
  }

  lemma ChildAddedChildren(t: Tree, t2: Tree, p: string, c: string)
    requires ChildrenOk(t) && ChildAddedNodes(t, t2, p, c)
    ensures ChildrenOk(t2)
  {
    forall n, x | n in t2.nodes && x in t2.nodes[n].children
      ensures x in t2.nodes && ParentOf(t2, x) == n
    {
      if n != p {
        assert ParentOf(t, x) == n;
      } else if x != c {
        assert ParentOf(t, x) == n;
      }
    }
  }

  lemma ChildAddedIndex(t: Tree, t2: Tree, p: string, c: string)
    requires LevelIndexOk(t) && ChildAddedNodes(t, t2, p, c) && ChildAddedLevels(t, t2, p, c)
    ensures LevelIndexOk(t2)
  {
    forall n | n in t2.nodes
      ensures t2.nodes[n].level in t2.levels && n in t2.levels[t2.nodes[n].level]
    {
      if n != c && n != p {
        assert t2.nodes[n] == t.nodes[n];
      }
    }
  }

  lemma ChildAddedKeys(t: Tree, t2: Tree, p: string, c: string)
    requires LevelsOk(t) && p in t.nodes && t.nodes[p].level in t.levels && ChildAddedLevels(t, t2, p, c)
    ensures LevelsOk(t2)
  {
    var level := t.nodes[p].level + 1;
    if level !in t.levels {
      assert level == |t.levels|;
      assert |t2.levels.Keys| == |t.levels.Keys| + 1;
    } else {
      assert t2.levels.Keys == t.levels.Keys;
    }
  }

  /** `CreateChildNode` keeps the invariant. */
  lemma CreateChildWellformed(t: Tree, p: string, c: string)
    requires Wellformed(t) && CreateChild(t, p, c).Ok?
    ensures Wellformed(CreateChild(t, p, c).value)
  {
    var t2 := CreateChild(t, p, c).value;
    CreateChildEffect(t, p, c);
    ChildAddedRoot(t, t2, p, c);
    ChildAddedParents(t, t2, p, c);
    ChildAddedChildren(t, t2, p, c);
    ChildAddedIndex(t, t2, p, c);
    assert t.nodes[p].level in t.levels;
    ChildAddedKeys(t, t2, p, c);
  }

  // RemoveNode

  /** Drops empty buckets from the top of a level map with keys 0 to k - 1, as the shrink loop does. */
  function Prune(lv: map<int, set<string>>, k: int): map<int, set<string>>
    decreases if k < 0 then 0 else k
  {
    if k > 0 && k - 1 in lv && lv[k - 1] == {} then Prune(lv - {k - 1}, k - 1) else lv
  }

  /** The number of levels the shrink loop keeps. */
  ghost function PruneDepth(lv: map<int, set<string>>, k: int): int
    decreases if k < 0 then 0 else k
  {
    if k > 0 && k - 1 in lv && lv[k - 1] == {} then PruneDepth(lv - {k - 1}, k - 1) else k
  }

  /**
   * When a bucket that is empty has only empty buckets above it, pruning
   * keeps exactly the non-empty buckets, unchanged.
   */
  lemma {:induction false} PruneFacts(lv: map<int, set<string>>, k: int)
    requires 0 < k && (forall l :: l in lv <==> 0 <= l < k) && lv[0] != {}
    requires forall l, l2 :: 0 <= l <= l2 < k && lv[l] == {} ==> lv[l2] == {}
    ensures 0 < PruneDepth(lv, k) <= k
    ensures forall l :: l in Prune(lv, k) <==> 0 <= l < PruneDepth(lv, k)
    ensures forall l :: l in Prune(lv, k) ==> Prune(lv, k)[l] == lv[l] != {}
    ensures forall l :: PruneDepth(lv, k) <= l < k ==> lv[l] == {}
    decreases k
  {
    if lv[k - 1] == {} {
      PruneFacts(lv - {k - 1}, k - 1);
      forall l | PruneDepth(lv, k) <= l < k
        ensures lv[l] == {}
      {
        if l < k - 1 {
          assert (lv - {k - 1})[l] == lv[l];
        }
      }
    }
  }

  /** Pruning such a map leaves a level map of the shape the invariant asks for. */
  lemma PruneLevels(lv: map<int, set<string>>, k: int)
    requires 0 < k && (forall l :: l in lv <==> 0 <= l < k) && lv[0] != {}
    requires forall l, l2 :: 0 <= l <= l2 < k && lv[l] == {} ==> lv[l2] == {}
    ensures forall l :: l in Prune(lv, k) <==> 0 <= l < |Prune(lv, k)|
    ensures forall l :: l in Prune(lv, k) ==> l in lv && Prune(lv, k)[l] == lv[l] != {}
    ensures forall l :: l in lv && lv[l] != {} ==> l in Prune(lv, k)
  {
    PruneFacts(lv, k);
    IntervalSize(Prune(lv, k).Keys, PruneDepth(lv, k));
  }

  /** A set of integers that is an interval from 0 has that many members. */
  lemma {:induction false} IntervalSize(keys: set<int>, k: int)
    requires 0 <= k
    requires forall l :: l in keys <==> 0 <= l < k
    ensures |keys| == k
    decreases k
  {
    if k > 0 {
      var rest := keys - {k - 1};
      IntervalSize(rest, k - 1);
      assert keys == rest + {k - 1};
    } else {
      assert forall l :: l !in keys;
    }
  }

  /**
   * `RemoveNode(n)`: nothing for an unknown name, a failure for the root;
   * otherwise n's subtree leaves the node map and the buckets, n leaves its
   * parent's children, and the buckets left empty at the top are dropped.
   */
  function RemoveNode(t: Tree, n: string): (r: Result<Tree, TreeError>)
    requires Wellformed(t)
    ensures n !in t.nodes ==> r == Ok(t)
    ensures r.Err? <==> n == t.root
    ensures r.Err? ==> r.error == RootRemoval
  {
    if n !in t.nodes then Ok(t)
    else if n == t.root then Err(RootRemoval)
    else
      var sub := SubtreeNodes(t, n);
      var p := t.nodes[n].parent;
      Ok(Tree(t.root,
              map m | m in t.nodes && m !in sub ::
                if m == p then t.nodes[p].(children := t.nodes[p].children - {n}) else t.nodes[m],
              Prune(Remainders(t, sub), |t.levels|)))
  }

  /** Each bucket less the removed names. */
  function Remainders(t: Tree, sub: set<string>): map<int, set<string>>
  {
    map l | l in t.levels :: t.levels[l] - sub
  }

  /** What `sub` is in a tree: n's subtree, closed under children, n the only member whose parent is outside. */
  ghost predicate SubtreeShape(t: Tree, n: string, sub: set<string>)
  {
    n in t.nodes && n != t.root && n in sub && sub <= t.nodes.Keys && t.root !in sub
    && ParentOf(t, n) !in sub
    && (forall m, c :: m in sub && m in t.nodes && c in t.nodes[m].children ==> c in sub)
    && (forall m :: m in sub && m in t.nodes && m != n ==> ParentOf(t, m) in sub)
  }

  lemma SubtreeShapeHolds(t: Tree, n: string)
    requires Wellformed(t) && n in t.nodes && n != t.root
    ensures SubtreeShape(t, n, SubtreeNodes(t, n))
  {
    var sub := SubtreeNodes(t, n);
    SubtreeNodesInTree(t, n);
    ParentNodeFacts(t, n);
    assert ParentOf(t, n) == GetParentNode(t, n).value;
    forall m, c | m in sub && m in t.nodes && c in t.nodes[m].children
      ensures c in sub
    {
      SubtreeClosed(t, n, m, c);
    }
    forall m | m in sub && m in t.nodes && m != n
      ensures ParentOf(t, m) in sub
    {
      SubtreeParent(t, n, m);
    }
  }

  /** What removing `sub` does to the root and the node map, entry by entry. */
  ghost predicate NodesRemoved(t: Tree, t2: Tree, n: string, sub: set<string>)
    requires n in t.nodes
  {
    var p := t.nodes[n].parent;
    t2.root == t.root
    && t2.nodes.Keys == t.nodes.Keys - sub
    && (p in t2.nodes ==> t2.nodes[p] == t.nodes[p].(children := t.nodes[p].children - {n}))
    && (forall m :: m in t2.nodes && m != p ==> t2.nodes[m] == t.nodes[m])
  }

  /** A node below a level whose whole bucket lies in n's subtree lies in it too. */
  lemma TrailingMember(t: Tree, n: string, x: string, l: int)
    requires Wellformed(t) && n in t.nodes && x in t.nodes
    requires 0 <= l <= t.nodes[x].level && l in t.levels && t.levels[l] <= SubtreeNodes(t, n)
    ensures x in SubtreeNodes(t, n)
  {
    var e := t.nodes[x].level - l;
    var b := GetAncestor(t, x, e).value;
    assert b in t.levels[l];
    DescendantOfMember(t, n, b, x, e);
  }

  /** Buckets emptied by removing a subtree are all above the ones it leaves non-empty. */
  lemma EmptiedLevelsAreTrailing(t: Tree, n: string, l: int, l2: int)
    requires Wellformed(t) && n in t.nodes && n != t.root
    requires 0 <= l <= l2 < |t.levels| && t.levels[l] <= SubtreeNodes(t, n)
    ensures t.levels[l2] <= SubtreeNodes(t, n)
  {
    forall x | x in t.levels[l2]
      ensures x in SubtreeNodes(t, n)
    {
      TrailingMember(t, n, x, l);
    }
  }

  /** The successful case of `RemoveNode`, entry by entry. */
  lemma RemoveNodeEffect(t: Tree, n: string)
    requires Wellformed(t) && n in t.nodes && n != t.root
    ensures NodesRemoved(t, RemoveNode(t, n).value, n, SubtreeNodes(t, n))
    ensures RemoveNode(t, n).value.levels == Prune(Remainders(t, SubtreeNodes(t, n)), |t.levels|)
  {
  }

  lemma RemovedRoot(t: Tree, t2: Tree, n: string, sub: set<string>)
    requires RootOk(t) && NamesOk(t) && SubtreeShape(t, n, sub) && NodesRemoved(t, t2, n, sub)
    ensures RootOk(t2) && NamesOk(t2)
  {
  }

  lemma RemovedParents(t: Tree, t2: Tree, n: string, sub: set<string>)
    requires ParentsOk(t) && SubtreeShape(t, n, sub) && NodesRemoved(t, t2, n, sub)
    ensures ParentsOk(t2)
  {
    forall m | m in t2.nodes && m != t2.root
      ensures ParentOf(t2, m) in t2.nodes
      ensures m in t2.nodes[ParentOf(t2, m)].children
      ensures t2.nodes[m].level == t2.nodes[ParentOf(t2, m)].level + 1
    {
      var q := ParentOf(t, m);
      assert ParentOf(t2, m) == q;
      assert q !in sub;
    }
  }

  lemma RemovedChildren(t: Tree, t2: Tree, n: string, sub: set<string>)
    requires ChildrenOk(t) && SubtreeShape(t, n, sub) && NodesRemoved(t, t2, n, sub)
    ensures ChildrenOk(t2)
  {
    forall m, x | m in t2.nodes && x in t2.nodes[m].children
      ensures x in t2.nodes && ParentOf(t2, x) == m
    {
      assert ParentOf(t, x) == m;
      assert x !in sub;
    }
  }

  lemma RemovedIndex(t: Tree, t2: Tree, n: string, sub: set<string>)
    requires LevelIndexOk(t) && SubtreeShape(t, n, sub) && NodesRemoved(t, t2, n, sub)
    requires forall l :: l in t2.levels ==> l in t.levels && t2.levels[l] == t.levels[l] - sub
    requires forall l :: l in t.levels && t.levels[l] - sub != {} ==> l in t2.levels
    ensures LevelIndexOk(t2)
  {
    forall m | m in t2.nodes
      ensures t2.nodes[m].level in t2.levels && m in t2.levels[t2.nodes[m].level]
    {
      var l := t.nodes[m].level;
      assert m in t.levels[l] - sub;
    }
  }

  /** The remainders of the buckets: keys from 0, the root's bucket kept, emptied buckets trailing. */
  lemma RemainderBuckets(t: Tree, n: string)
    requires Wellformed(t) && n in t.nodes && n != t.root
    ensures var lv, k := Remainders(t, SubtreeNodes(t, n)), |t.levels|;
      0 < k && (forall l :: l in lv <==> 0 <= l < k) && lv[0] != {}
      && (forall l, l2 :: 0 <= l <= l2 < k && lv[l] == {} ==> lv[l2] == {})
  {
    var sub := SubtreeNodes(t, n);
    var lv := Remainders(t, sub);
    SubtreeNodesInTree(t, n);
    assert t.root in t.levels[0];
    assert t.root in lv[0];
    forall l, l2 | 0 <= l <= l2 < |t.levels| && lv[l] == {}
      ensures lv[l2] == {}
    {
      EmptiedLevelsAreTrailing(t, n, l, l2);
    }
  }

  /** The level map after `RemoveNode`: the non-empty remainders of the buckets, from 0 without a gap. */
  lemma RemovedLevels(t: Tree, n: string)
    requires Wellformed(t) && n in t.nodes && n != t.root
    ensures var t2 := RemoveNode(t, n).value;
      LevelsOk(t2)
      && (forall l :: l in t2.levels ==> l in t.levels && t2.levels[l] == t.levels[l] - SubtreeNodes(t, n))
      && (forall l :: l in t.levels && t.levels[l] - SubtreeNodes(t, n) != {} ==> l in t2.levels)
  {
    RemoveNodeEffect(t, n);
    RemainderBuckets(t, n);
    PruneLevels(Remainders(t, SubtreeNodes(t, n)), |t.levels|);
  }

  /** `RemoveNode` keeps the invariant. */
  lemma RemoveNodeWellformed(t: Tree, n: string)
    requires Wellformed(t) && RemoveNode(t, n).Ok?
    ensures Wellformed(RemoveNode(t, n).value)
  {
    if n in t.nodes {
      var t2 := RemoveNode(t, n).value;
      var sub := SubtreeNodes(t, n);
      RemoveNodeEffect(t, n);
      SubtreeShapeHolds(t, n);
      RemovedLevels(t, n);
      RemovedRoot(t, t2, n, sub);
      RemovedParents(t, t2, n, sub);
      RemovedChildren(t, t2, n, sub);
      RemovedIndex(t, t2, n, sub);
    }
  }
}
