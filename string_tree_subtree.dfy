/**
 * `StringTree::GetSubtree` (StringTree.cpp): the subtree under a node as a
 * tree of its own. The source builds it by creating, from the node down,
 * every child under its parent in a fresh tree rooted at the node; the
 * result is that tree's value: the same names and edges, levels counted
 * from the new root.
 */
module StringTreeSubtree {
  import opened Wrappers
  import opened StringTreeState
  import StringTreeEdit

  /**
   * `GetSubtree(n)`: fails for an unknown name; otherwise a well-formed tree
   * rooted at n whose nodes are n's subtree, smaller than the tree unless n
   * is its root.
   */
  function GetSubtree(t: Tree, n: string): (r: Result<Tree, TreeError>)
    requires Wellformed(t)
    ensures r.Ok? <==> n in t.nodes
    ensures r.Ok? ==> (Wellformed(r.value) && r.value.root == n
      && r.value.nodes.Keys == SubtreeNodes(t, n) && r.value.nodes.Keys <= t.nodes.Keys)
    ensures r.Ok? ==> SubtreeOf(t, r.value, n)
    ensures r.Ok? && n != t.root ==> |r.value.nodes| < |t.nodes|
  {
    if n in t.nodes then SubtreeFacts(t, n); SubtreeEffect(t, n); Ok(Subtree(t, n)) else Err(NoSuchNode)
  }

  /** The subtree of n: its members keep their children, n loses its parent, levels start at 0. */
  function Subtree(t: Tree, n: string): Tree
    requires Wellformed(t) && n in t.nodes
  {
    var sub := SubtreeNodes(t, n);
    var base := t.nodes[n].level;
    SubtreeNodesInTree(t, n);
    Tree(n,
         map m | m in sub :: TreeNode(t.nodes[m].level - base, t.nodes[m].children, if m == n then NullNodeName else t.nodes[m].parent),
         StringTreeEdit.Prune(RelativeBuckets(t, n), |t.levels| - base))
  }

  /** The members of n's subtree at each level below n, counted from n, up to the tree's last level. */
  function RelativeBuckets(t: Tree, n: string): map<int, set<string>>
    requires Wellformed(t) && n in t.nodes
  {
    map l | 0 <= l < |t.levels| - t.nodes[n].level :: RelativeBucket(t, n, l)
  }

  /** The members of n's subtree l levels below n. */
  function RelativeBucket(t: Tree, n: string, l: int): set<string>
    requires Wellformed(t) && n in t.nodes
  {
    var k := t.nodes[n].level + l;
    if k in t.levels then SubtreeNodes(t, n) * t.levels[k] else {}
  }

  /** Walking up from a member of n's subtree stays inside it down to n. */
  lemma {:induction false} AncestorInSubtree(t: Tree, n: string, x: string, e: int)
    requires Wellformed(t) && n in t.nodes && x in SubtreeNodes(t, n)
    requires 0 <= e
    requires x in t.nodes && e <= t.nodes[x].level - t.nodes[n].level
    ensures GetAncestor(t, x, e).Ok? && GetAncestor(t, x, e).value in SubtreeNodes(t, n)
    ensures GetAncestor(t, x, e).value in t.nodes
      && t.nodes[GetAncestor(t, x, e).value].level == t.nodes[x].level - e
    decreases e
  {
    if e > 0 {
      SubtreeParent(t, n, x);
      ParentNodeFacts(t, x);
      AncestorInSubtree(t, n, t.nodes[x].parent, e - 1);
    }
  }

  /** The relative buckets have the shape pruning expects: keys from 0, n's bucket first, emptied buckets trailing. */
  lemma RelativeBucketsShape(t: Tree, n: string)
    requires Wellformed(t) && n in t.nodes
    ensures var lv, k := RelativeBuckets(t, n), |t.levels| - t.nodes[n].level;
      0 < k && (forall l :: l in lv <==> 0 <= l < k) && lv[0] != {}
      && (forall l, l2 :: 0 <= l <= l2 < k && lv[l] == {} ==> lv[l2] == {})
  {
    var lv, k := RelativeBuckets(t, n), |t.levels| - t.nodes[n].level;
    LevelBounds(t, n);
    assert n in SubtreeNodes(t, n);
    assert n in RelativeBucket(t, n, 0);
    forall l, l2 | 0 <= l <= l2 < k && lv[l2] != {}
      ensures lv[l] != {}
    {
      var x :| x in lv[l2];
      assert x in SubtreeNodes(t, n) && x in t.nodes && t.nodes[x].level == t.nodes[n].level + l2;
      BucketAbove(t, n, x, l, l2);
    }
  }

  /** A member l2 levels below n has an ancestor l levels below n, for l <= l2. */
  lemma BucketAbove(t: Tree, n: string, x: string, l: int, l2: int)
    requires Wellformed(t) && n in t.nodes && 0 <= l <= l2
    requires x in SubtreeNodes(t, n) && x in t.nodes && t.nodes[x].level == t.nodes[n].level + l2
    ensures RelativeBucket(t, n, l) != {}
  {
    AncestorInSubtree(t, n, x, l2 - l);
    var a := GetAncestor(t, x, l2 - l).value;
    assert a in SubtreeNodes(t, n) && t.nodes[a].level == t.nodes[n].level + l;
    assert a in RelativeBucket(t, n, l);
  }

  /** The subtree's level map: the non-empty relative buckets, from 0 without a gap. */
  lemma SubtreeLevels(t: Tree, n: string)
    requires Wellformed(t) && n in t.nodes
    ensures LevelsOk(Subtree(t, n)) && BucketsRelative(t, n, Subtree(t, n))
  {
    RelativeBucketsShape(t, n);
    StringTreeEdit.PruneLevels(RelativeBuckets(t, n), |t.levels| - t.nodes[n].level);
  }

  /** What the subtree holds, entry by entry. */
  ghost predicate SubtreeOf(t: Tree, s: Tree, n: string)
    requires n in t.nodes
  {
    var sub, base := SubtreeNodes'(t, n), t.nodes[n].level;
    s.root == n
    && s.nodes.Keys == sub
    && (forall m :: m in s.nodes ==>
          (m in t.nodes
           && s.nodes[m] == TreeNode(t.nodes[m].level - base, t.nodes[m].children,
                                     if m == n then NullNodeName else t.nodes[m].parent)))
  }

  /** `SubtreeNodes` where the invariant is not in scope. */
  ghost function SubtreeNodes'(t: Tree, n: string): set<string>
  {
    if Wellformed(t) && n in t.nodes then SubtreeNodes(t, n) else {}
  }

  lemma SubtreeEffect(t: Tree, n: string)
    requires Wellformed(t) && n in t.nodes
    ensures SubtreeOf(t, Subtree(t, n), n)
  {
    SubtreeNodesInTree(t, n);
  }

  lemma SubtreeRootOk(t: Tree, n: string, s: Tree)
    requires Wellformed(t) && n in t.nodes && SubtreeOf(t, s, n)
    ensures RootOk(s) && NamesOk(s)
  {
    assert n in SubtreeNodes(t, n);
    SubtreeNodesInTree(t, n);
  }

  lemma SubtreeParentsOk(t: Tree, n: string, s: Tree)
    requires Wellformed(t) && n in t.nodes && SubtreeOf(t, s, n)
    ensures ParentsOk(s)
  {
    forall m | m in s.nodes && m != s.root
      ensures ParentOf(s, m) in s.nodes
      ensures m in s.nodes[ParentOf(s, m)].children
      ensures s.nodes[m].level == s.nodes[ParentOf(s, m)].level + 1
    {
      SubtreeParent(t, n, m);
      ParentNodeFacts(t, m);
    }
  }

  lemma SubtreeChildrenOk(t: Tree, n: string, s: Tree)
    requires Wellformed(t) && n in t.nodes && SubtreeOf(t, s, n)
    ensures ChildrenOk(s)
  {
    SubtreeNodesInTree(t, n);
    forall m, x | m in s.nodes && x in s.nodes[m].children
      ensures x in s.nodes && ParentOf(s, x) == m
    {
      SubtreeClosed(t, n, m, x);
      ChildFacts(t, m, x);
    }
  }

  /** Bucket l of the subtree is its relative bucket l. */
  ghost predicate BucketsRelative(t: Tree, n: string, s: Tree)
    requires Wellformed(t) && n in t.nodes
  {
    (forall l :: l in s.levels ==> 0 <= l < |t.levels| - t.nodes[n].level && s.levels[l] == RelativeBucket(t, n, l))
    && (forall l :: 0 <= l < |t.levels| - t.nodes[n].level && RelativeBucket(t, n, l) != {} ==> l in s.levels)
  }

  lemma SubtreeIndexNodes(t: Tree, n: string, s: Tree)
    requires Wellformed(t) && n in t.nodes && SubtreeOf(t, s, n) && BucketsRelative(t, n, s)
    ensures forall m :: m in s.nodes ==> s.nodes[m].level in s.levels && m in s.levels[s.nodes[m].level]
  {
    SubtreeNodesInTree(t, n);
    forall m | m in s.nodes
      ensures s.nodes[m].level in s.levels && m in s.levels[s.nodes[m].level]
    {
      LevelBounds(t, m);
      assert t.nodes[m].level in t.levels;
      assert m in RelativeBucket(t, n, t.nodes[m].level - t.nodes[n].level);
    }
  }

  lemma SubtreeIndexBuckets(t: Tree, n: string, s: Tree)
    requires Wellformed(t) && n in t.nodes && SubtreeOf(t, s, n) && BucketsRelative(t, n, s)
    ensures forall l, m :: l in s.levels && m in s.levels[l] ==> m in s.nodes && s.nodes[m].level == l
  {
    forall l, m | l in s.levels && m in s.levels[l]
      ensures m in s.nodes && s.nodes[m].level == l
    {
      assert m in RelativeBucket(t, n, l);
    }
  }

  /** The subtree is a well-formed tree. */
  lemma SubtreeWellformed(t: Tree, n: string)
    requires Wellformed(t) && n in t.nodes
    ensures Wellformed(Subtree(t, n))
  {
    var s := Subtree(t, n);
    SubtreeEffect(t, n);
    SubtreeRootOk(t, n, s);
    SubtreeParentsOk(t, n, s);
    SubtreeChildrenOk(t, n, s);
    SubtreeLevels(t, n);
    SubtreeIndexNodes(t, n, s);
    SubtreeIndexBuckets(t, n, s);
  }

  /**
   * The subtree of n is a well-formed tree rooted at n holding exactly
   * n's subtree nodes, each with its children; every member but n keeps
   * its parent. Below the root it is strictly smaller than the tree.
   */
  lemma SubtreeFacts(t: Tree, n: string)
    requires Wellformed(t) && n in t.nodes
    ensures var s := Subtree(t, n);
      Wellformed(s) && s.root == n && s.nodes.Keys == SubtreeNodes(t, n) && s.nodes.Keys <= t.nodes.Keys
      && (forall m :: m in s.nodes ==> s.nodes[m].children == t.nodes[m].children)
      && (forall m :: m in s.nodes && m != n ==> s.nodes[m].parent == t.nodes[m].parent)
      && (n != t.root ==> |s.nodes| < |t.nodes|)
  {
    SubtreeWellformed(t, n);
    SubtreeEffect(t, n);
    SubtreeSmaller(t, n, Subtree(t, n));
  }

  lemma SubtreeSmaller(t: Tree, n: string, s: Tree)
    requires Wellformed(t) && n in t.nodes && SubtreeOf(t, s, n)
    ensures n != t.root ==> |s.nodes| < |t.nodes|
  {
    SubtreeNodesInTree(t, n);
    if n != t.root {
      LevelZeroIsRoot(t, n);
      LevelZeroIsRoot(t, t.root);
      LevelBounds(t, n);
      assert t.root !in s.nodes.Keys;
      var rest := t.nodes.Keys - {t.root};
      assert s.nodes.Keys <= rest;
      assert |rest| == |t.nodes.Keys| - 1;
      assert rest == (rest - s.nodes.Keys) + s.nodes.Keys;
      assert |rest| == |rest - s.nodes.Keys| + |s.nodes.Keys|;
    }
  }
}
