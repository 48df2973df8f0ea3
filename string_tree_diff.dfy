/**
 * `DiffStringTree` (StringTree.cpp): what changed between two trees.
 *
 * The comparison walks both trees from the root: different roots report
 * every node on both sides; otherwise a child of the root missing on one
 * side reports its whole subtree on that side, and a child on both sides is
 * compared as the root of the two subtrees. What that computes is stated
 * by `Path`, the chain of names from the root down to a node: a node is
 * reported exactly when the other tree does not hold it at the end of the
 * same chain.
 */
module StringTreeDiff {
  import opened StringTreeState
  import opened StringTreeSubtree

  /** `StringTreeDiffResult`: `RemovedNodes` and `UpdatedNodes`. */
  datatype DiffResult = DiffResult(removed: set<string>, updated: set<string>)

  /**
   * `DiffStringTree(before, after)`. Different roots report both trees
   * whole; otherwise only names of the two trees are reported.
   */
  function Diff(before: Tree, after: Tree): (r: DiffResult)
    requires Wellformed(before) && Wellformed(after)
    ensures before.root != after.root ==> r == DiffResult(before.nodes.Keys, after.nodes.Keys)
    decreases |before.nodes|, 2
  {
    if before.root != after.root then
      SubtreeOfRoot(before);
      SubtreeOfRoot(after);
      DiffResult(SubtreeNodes(before, before.root), SubtreeNodes(after, after.root))
    else
      DiffResult(Unmatched(before, after) + SharedRemoved(before, after),
                 SharedUpdated(before, after) + Unmatched(after, before))
  }

  /** The subtrees of the children of t's root that u's root lacks. */
  function Unmatched(t: Tree, u: Tree): set<string>
    requires Wellformed(t) && Wellformed(u)
  {
    SubtreesInTree(t);
    set c, m | c in t.nodes[t.root].children && c !in u.nodes[u.root].children && m in SubtreeNodes(t, c) :: m
  }

  /** What the comparisons below the children both roots share report as removed. */
  function SharedRemoved(before: Tree, after: Tree): set<string>
    requires Wellformed(before) && Wellformed(after)
    decreases |before.nodes|, 1
  {
    set c, m | c in before.nodes[before.root].children && c in after.nodes[after.root].children
               && m in ChildDiff(before, after, c).removed :: m
  }

  /** What the comparisons below the children both roots share report as updated. */
  function SharedUpdated(before: Tree, after: Tree): set<string>
    requires Wellformed(before) && Wellformed(after)
    decreases |before.nodes|, 1
  {
    set c, m | c in before.nodes[before.root].children && c in after.nodes[after.root].children
               && m in ChildDiff(before, after, c).updated :: m
  }

  /** The comparison of the subtrees of c, a child of the root on both sides. */
  function ChildDiff(before: Tree, after: Tree, c: string): (r: DiffResult)
    requires Wellformed(before) && Wellformed(after)
    requires c in before.nodes[before.root].children && c in after.nodes[after.root].children
    decreases |before.nodes|, 0
  {
    ChildFacts(before, before.root, c);
    ChildFacts(after, after.root, c);
    Diff(GetSubtree(before, c).value, GetSubtree(after, c).value)
  }

  /** The root's children are nodes other than the root, and their subtrees lie in the tree. */
  lemma SubtreesInTree(t: Tree)
    requires Wellformed(t)
    ensures forall c :: c in t.nodes[t.root].children ==> c in t.nodes && c != t.root
    ensures forall c :: c in t.nodes[t.root].children ==> SubtreeNodes'(t, c) <= t.nodes.Keys
  {
    forall c | c in t.nodes[t.root].children
      ensures c in t.nodes && c != t.root && SubtreeNodes'(t, c) <= t.nodes.Keys
    {
      ChildFacts(t, t.root, c);
      SubtreeNodesInTree(t, c);
    }
  }

  /** The names from the root down to x, x last. */
  ghost function Path(t: Tree, x: string): seq<string>
    requires Wellformed(t) && x in t.nodes
    decreases t.nodes[x].level
  {
    LevelBounds(t, x);
    if x == t.root then [x]
    else
      ParentNodeFacts(t, x);
      Path(t, t.nodes[x].parent) + [x]
  }

  /** x lies at the end of the same chain of names in both trees. */
  ghost predicate SamePlace(t: Tree, u: Tree, x: string)
    requires Wellformed(t) && Wellformed(u)
  {
    x in t.nodes && x in u.nodes && Path(t, x) == Path(u, x)
  }

  /** A path runs from the root, one level per name, to x. */
  lemma {:induction false} PathFacts(t: Tree, x: string)
    requires Wellformed(t) && x in t.nodes
    ensures |Path(t, x)| == t.nodes[x].level + 1
    ensures Path(t, x)[0] == t.root && Path(t, x)[|Path(t, x)| - 1] == x
    decreases t.nodes[x].level
  {
    LevelZeroIsRoot(t, x);
    if x != t.root {
      ParentNodeFacts(t, x);
      PathFacts(t, t.nodes[x].parent);
    }
  }

  /** Each name on x's path is a node whose subtree holds x. */
  lemma {:induction false} PathThrough(t: Tree, x: string, i: int)
    requires Wellformed(t) && x in t.nodes && 0 <= i < |Path(t, x)|
    ensures Path(t, x)[i] in t.nodes && x in SubtreeNodes(t, Path(t, x)[i])
    decreases t.nodes[x].level
  {
    if x == t.root || i == |Path(t, x)| - 1 {
      assert Path(t, x)[i] == x;
      assert x in SubtreeNodes(t, x);
    } else {
      ParentNodeFacts(t, x);
      var p := t.nodes[x].parent;
      assert Path(t, x)[i] == Path(t, p)[i];
      PathThrough(t, p, i);
      SubtreeClosed(t, Path(t, p)[i], p, x);
    }
  }

  /** The second name on the path of a node other than the root is a child of the root. */
  lemma {:induction false} PathSecond(t: Tree, x: string)
    requires Wellformed(t) && x in t.nodes && x != t.root
    ensures |Path(t, x)| >= 2 && Path(t, x)[1] in t.nodes[t.root].children
    decreases t.nodes[x].level
  {
    ParentNodeFacts(t, x);
    var p := t.nodes[x].parent;
    PathFacts(t, p);
    if p == t.root {
      assert Path(t, x) == [t.root, x];
    } else {
      PathSecond(t, p);
      assert Path(t, x)[1] == Path(t, p)[1];
    }
  }

  /** Inside n's subtree a path is n's path followed by the path within the subtree. */
  lemma {:induction false} SubtreePath(t: Tree, n: string, s: Tree, x: string)
    requires Wellformed(t) && n in t.nodes && Wellformed(s) && SubtreeOf(t, s, n)
    requires x in SubtreeNodes(t, n)
    ensures x in t.nodes && x in s.nodes && |Path(s, x)| >= 1
    ensures Path(t, x) == Path(t, n) + Path(s, x)[1..]
    decreases if x in t.nodes then t.nodes[x].level else 0
  {
    SubtreeNodesInTree(t, n);
    PathFacts(s, x);
    if x != n {
      SubtreeParent(t, n, x);
      var p := t.nodes[x].parent;
      ParentNodeFacts(t, x);
      assert s.nodes[x].parent == p && x != s.root;
      SubtreePath(t, n, s, p);
      var q := Path(s, p);
      assert Path(s, x) == q + [x];
      assert Path(t, x) == Path(t, p) + [x];
      Regroup(Path(t, n), q, x);
    } else {
      assert Path(s, x) == [x];
    }
  }

  lemma Regroup(a: seq<string>, q: seq<string>, x: string)
    requires |q| >= 1
    ensures a + q[1..] + [x] == a + (q + [x])[1..]
  {
    assert (q + [x])[1..] == q[1..] + [x];
  }

  /** The path below a child c of the root: the root, then the path in c's subtree s. */
  lemma ChildPath(t: Tree, c: string, s: Tree, x: string)
    requires Wellformed(t) && c in t.nodes[t.root].children
    requires c in t.nodes && Wellformed(s) && SubtreeOf(t, s, c)
    requires x in SubtreeNodes(t, c)
    ensures x in t.nodes && x in s.nodes
    ensures Path(t, x) == [t.root] + Path(s, x)
  {
    ChildFacts(t, t.root, c);
    SubtreePath(t, c, s, x);
    PathFacts(s, x);
    ParentNodeFacts(t, c);
    assert Path(t, t.root) == [t.root];
    assert Path(t, c) == [t.root, c];
    Cons(t.root, c, Path(s, x));
  }

  lemma Cons(r: string, c: string, q: seq<string>)
    requires |q| >= 1 && q[0] == c
    ensures [r, c] + q[1..] == [r] + q
  {
    assert q == [c] + q[1..];
  }

  // What the comparison computes.

  /** The subtree of c as `GetSubtree` returns it. */
  function Sub(t: Tree, c: string): (s: Tree)
    requires Wellformed(t) && c in t.nodes
    ensures Wellformed(s) && SubtreeOf(t, s, c) && s.nodes.Keys == SubtreeNodes(t, c)
  {
    GetSubtree(t, c).value
  }

  /** Diff reports as removed exactly the nodes of before not in the same place in after. */
  ghost predicate RemovedExactly(before: Tree, after: Tree)
    requires Wellformed(before) && Wellformed(after)
  {
    forall x :: x in Diff(before, after).removed <==> x in before.nodes && !SamePlace(before, after, x)
  }

  /** The same holds for the subtrees of every child the two roots share. */
  ghost predicate SharedChildrenExact(before: Tree, after: Tree)
    requires Wellformed(before) && Wellformed(after)
  {
    forall c :: c in before.nodes[before.root].children && c in after.nodes[after.root].children ==>
      c in before.nodes && c in after.nodes && RemovedExactly(Sub(before, c), Sub(after, c))
  }

  /** The child of the root above x, for x other than the root: the only one whose subtree holds x. */
  lemma Branch(t: Tree, x: string) returns (c: string)
    requires Wellformed(t) && x in t.nodes && x != t.root
    ensures c in t.nodes[t.root].children && c in t.nodes && x in SubtreeNodes(t, c)
    ensures |Path(t, x)| >= 2 && Path(t, x)[1] == c
    ensures forall c' :: c' in t.nodes[t.root].children && x in SubtreeNodes'(t, c') ==> c' == c
  {
    PathSecond(t, x);
    c := Path(t, x)[1];
    PathThrough(t, x, 1);
    forall c' | c' in t.nodes[t.root].children && x in SubtreeNodes'(t, c')
      ensures c' == c
    {
      ChildFacts(t, t.root, c');
      BranchOf(t, c', x);
    }
  }

  /** Below a child c shared by both roots, x is in the same place in the trees iff in c's subtrees. */
  lemma SamePlaceBelow(before: Tree, after: Tree, c: string, sb: Tree, sa: Tree, x: string)
    requires Wellformed(before) && Wellformed(after) && before.root == after.root
    requires c in before.nodes[before.root].children && c in after.nodes[after.root].children
    requires c in before.nodes && c in after.nodes
    requires Wellformed(sb) && SubtreeOf(before, sb, c) && Wellformed(sa) && SubtreeOf(after, sa, c)
    requires x in SubtreeNodes(before, c)
    ensures x in sb.nodes
    ensures SamePlace(sb, sa, x) <==> SamePlace(before, after, x)
  {
    ChildPath(before, c, sb, x);
    if SamePlace(sb, sa, x) {
      ChildPath(after, c, sa, x);
    }
    if SamePlace(before, after, x) {
      SameAbove(before, after, c, sa, x);
      ConsInjective(before.root, Path(sa, x), Path(sb, x));
    }
  }

  /** x in the same place in both trees, below c in before, is below c in after too. */
  lemma SameAbove(before: Tree, after: Tree, c: string, sa: Tree, x: string)
    requires Wellformed(before) && Wellformed(after) && before.root == after.root
    requires c in before.nodes[before.root].children && c in after.nodes[after.root].children
    requires c in before.nodes && c in after.nodes && Wellformed(sa) && SubtreeOf(after, sa, c)
    requires x in SubtreeNodes(before, c) && SamePlace(before, after, x)
    ensures x in sa.nodes && Path(after, x) == [after.root] + Path(sa, x)
  {
    BranchOf(before, c, x);
    PathThrough(after, x, 1);
    ChildPath(after, c, sa, x);
  }

  /** Below a child c of the root, the second name on a path is c. */
  lemma BranchOf(t: Tree, c: string, x: string)
    requires Wellformed(t) && c in t.nodes[t.root].children && c in t.nodes && x in SubtreeNodes(t, c)
    ensures x in t.nodes && |Path(t, x)| >= 2 && Path(t, x)[1] == c
  {
    ChildPath(t, c, Sub(t, c), x);
    PathFacts(Sub(t, c), x);
  }

  lemma ConsInjective(r: string, p: seq<string>, q: seq<string>)
    requires [r] + p == [r] + q
    ensures p == q
  {
    assert p == ([r] + p)[1..];
    assert q == ([r] + q)[1..];
  }

  /** Below a child of the root that after lacks, no node is in the same place in after. */
  lemma NotSamePlaceBelow(before: Tree, after: Tree, c: string, x: string)
    requires Wellformed(before) && Wellformed(after) && before.root == after.root
    requires c in before.nodes[before.root].children && c !in after.nodes[after.root].children
    requires x in before.nodes && x != before.root && x in SubtreeNodes'(before, c)
    ensures !SamePlace(before, after, x)
  {
    var c0 := Branch(before, x);
    if x in after.nodes {
      PathSecond(after, x);
    }
  }

  /** Neither the root nor a name outside before is removed when the roots agree. */
  lemma RemovedAtTop(before: Tree, after: Tree, x: string)
    requires Wellformed(before) && Wellformed(after) && before.root == after.root
    requires SharedChildrenExact(before, after)
    requires x !in before.nodes || x == before.root
    ensures x !in Diff(before, after).removed
    ensures x in before.nodes ==> SamePlace(before, after, x)
  {
    NotBelowChildren(before, x);
    NotSharedRemoved(before, after, x);
    SubtreesInTree(before);
    assert x !in Unmatched(before, after);
    if x == before.root {
      RootSamePlace(before, after);
    }
  }

  /** A name below no child of the before root is not removed below a shared child. */
  lemma NotSharedRemoved(before: Tree, after: Tree, x: string)
    requires Wellformed(before) && Wellformed(after) && SharedChildrenExact(before, after)
    requires forall c :: c in before.nodes[before.root].children ==> x !in SubtreeNodes'(before, c)
    ensures x !in SharedRemoved(before, after)
  {
    forall c | c in before.nodes[before.root].children && c in after.nodes[after.root].children
      ensures x !in ChildDiff(before, after, c).removed
    {
      assert RemovedExactly(Sub(before, c), Sub(after, c));
    }
  }

  /** Equal roots are in the same place. */
  lemma RootSamePlace(before: Tree, after: Tree)
    requires Wellformed(before) && Wellformed(after) && before.root == after.root
    ensures SamePlace(before, after, before.root)
  {
    assert Path(before, before.root) == [before.root] == Path(after, after.root);
  }

  /** Neither the root nor a name outside the tree lies below a child of the root. */
  lemma NotBelowChildren(t: Tree, x: string)
    requires Wellformed(t) && (x !in t.nodes || x == t.root)
    ensures forall c :: c in t.nodes[t.root].children ==> x !in SubtreeNodes'(t, c)
  {
    forall c | c in t.nodes[t.root].children
      ensures x !in SubtreeNodes'(t, c)
    {
      ChildFacts(t, t.root, c);
      SubtreeNodesInTree(t, c);
      LevelZeroIsRoot(t, c);
      LevelBounds(t, c);
    }
  }

  /** A node below a shared child is removed iff the subtrees' comparison removes it. */
  lemma RemovedAtShared(before: Tree, after: Tree, c: string, x: string)
    requires Wellformed(before) && Wellformed(after) && before.root == after.root
    requires SharedChildrenExact(before, after)
    requires c in before.nodes[before.root].children && c in after.nodes[after.root].children
    requires x in before.nodes && x in SubtreeNodes'(before, c)
    requires forall c' :: c' in before.nodes[before.root].children && x in SubtreeNodes'(before, c') ==> c' == c
    ensures x in Diff(before, after).removed <==> !SamePlace(before, after, x)
  {
    assert RemovedExactly(Sub(before, c), Sub(after, c));
    SamePlaceBelow(before, after, c, Sub(before, c), Sub(after, c), x);
    SharedRemovedAt(before, after, c, x);
    NotUnmatched(before, after, c, x);
  }

  /** Below a shared child c, only the comparison of c's subtrees can remove x. */
  lemma SharedRemovedAt(before: Tree, after: Tree, c: string, x: string)
    requires Wellformed(before) && Wellformed(after) && SharedChildrenExact(before, after)
    requires c in before.nodes[before.root].children && c in after.nodes[after.root].children
    requires forall c' :: c' in before.nodes[before.root].children && x in SubtreeNodes'(before, c') ==> c' == c
    ensures x in SharedRemoved(before, after) <==> x in ChildDiff(before, after, c).removed
  {
    forall c' | c' in before.nodes[before.root].children && c' in after.nodes[after.root].children && c' != c
      ensures x !in ChildDiff(before, after, c').removed
    {
      assert RemovedExactly(Sub(before, c'), Sub(after, c'));
    }
  }

  /** Below a shared child c, x is in no unmatched subtree. */
  lemma NotUnmatched(before: Tree, after: Tree, c: string, x: string)
    requires Wellformed(before) && Wellformed(after)
    requires c in after.nodes[after.root].children
    requires forall c' :: c' in before.nodes[before.root].children && x in SubtreeNodes'(before, c') ==> c' == c
    ensures x !in Unmatched(before, after)
  {
    SubtreesInTree(before);
  }

  /** A node below a child that after lacks is removed, and is not in the same place. */
  lemma RemovedAtMissing(before: Tree, after: Tree, c: string, x: string)
    requires Wellformed(before) && Wellformed(after) && before.root == after.root
    requires c in before.nodes[before.root].children && c !in after.nodes[after.root].children
    requires x in before.nodes && x != before.root && x in SubtreeNodes'(before, c)
    ensures x in Diff(before, after).removed && !SamePlace(before, after, x)
  {
    ChildFacts(before, before.root, c);
    assert x in Unmatched(before, after);
    NotSamePlaceBelow(before, after, c, x);
  }

  /** One node's membership in the removed set, given the shared children's subtrees. */
  lemma RemovedAt(before: Tree, after: Tree, x: string)
    requires Wellformed(before) && Wellformed(after) && before.root == after.root
    requires SharedChildrenExact(before, after)
    ensures x in Diff(before, after).removed <==> x in before.nodes && !SamePlace(before, after, x)
  {
    if x !in before.nodes || x == before.root {
      RemovedAtTop(before, after, x);
    } else {
      var c := Branch(before, x);
      if c in after.nodes[after.root].children {
        RemovedAtShared(before, after, c, x);
      } else {
        RemovedAtMissing(before, after, c, x);
      }
    }
  }

  /** Diff's removed set: the nodes of before that after does not hold in the same place. */
  lemma {:induction false} DiffRemoved(before: Tree, after: Tree)
    requires Wellformed(before) && Wellformed(after)
    ensures RemovedExactly(before, after)
    decreases |before.nodes|
  {
    if before.root != after.root {
      forall x | x in before.nodes
        ensures !SamePlace(before, after, x)
      {
        PathFacts(before, x);
        if x in after.nodes {
          PathFacts(after, x);
        }
      }
    } else {
      var b, a := before.nodes[before.root].children, after.nodes[after.root].children;
      forall c | c in b && c in a
        ensures c in before.nodes && c in after.nodes && RemovedExactly(Sub(before, c), Sub(after, c))
      {
        ChildFacts(before, before.root, c);
        ChildFacts(after, after.root, c);
        DiffRemoved(Sub(before, c), Sub(after, c));
      }
      forall x
        ensures x in Diff(before, after).removed <==> x in before.nodes && !SamePlace(before, after, x)
      {
        RemovedAt(before, after, x);
      }
    }
  }

  /** The shared-child comparisons report as updated what the swapped ones report as removed. */
  ghost predicate SharedSwapped(before: Tree, after: Tree)
    requires Wellformed(before) && Wellformed(after)
  {
    forall c :: c in before.nodes[before.root].children && c in after.nodes[after.root].children ==>
      ChildDiff(before, after, c).updated == ChildDiff(after, before, c).removed
  }

  lemma SharedSwap(before: Tree, after: Tree)
    requires Wellformed(before) && Wellformed(after) && SharedSwapped(before, after)
    ensures SharedUpdated(before, after) == SharedRemoved(after, before)
  {
    forall x | x in SharedRemoved(after, before)
      ensures x in SharedUpdated(before, after)
    {
      var c :| c in after.nodes[after.root].children && c in before.nodes[before.root].children
               && x in ChildDiff(after, before, c).removed;
      assert x in ChildDiff(before, after, c).updated;
    }
  }

  /** Diff's updated set is the removed set of the comparison the other way round. */
  lemma {:induction false} DiffSwap(before: Tree, after: Tree)
    requires Wellformed(before) && Wellformed(after)
    ensures Diff(before, after).updated == Diff(after, before).removed
    decreases |before.nodes|
  {
    if before.root == after.root {
      forall c | c in before.nodes[before.root].children && c in after.nodes[after.root].children
        ensures ChildDiff(before, after, c).updated == ChildDiff(after, before, c).removed
      {
        ChildFacts(before, before.root, c);
        ChildFacts(after, after.root, c);
        DiffSwap(Sub(before, c), Sub(after, c));
      }
      SharedSwap(before, after);
    }
  }

  /**
   * `DiffStringTree` reports as removed exactly the nodes of before, and as
   * updated exactly the nodes of after, that the other tree does not hold
   * at the end of the same chain of names from the root: nodes that were
   * deleted or added, and nodes that moved, on both sides.
   */
  lemma DiffExact(before: Tree, after: Tree)
    requires Wellformed(before) && Wellformed(after)
    ensures forall x :: x in Diff(before, after).removed <==> x in before.nodes && !SamePlace(before, after, x)
    ensures forall x :: x in Diff(before, after).updated <==> x in after.nodes && !SamePlace(before, after, x)
  {
    DiffRemoved(before, after);
    DiffRemoved(after, before);
    DiffSwap(before, after);
    forall x | x in after.nodes
      ensures SamePlace(after, before, x) == SamePlace(before, after, x)
    {
    }
  }

  /** Comparing a tree with itself reports nothing. */
  lemma DiffSameTree(t: Tree)
    requires Wellformed(t)
    ensures Diff(t, t) == DiffResult({}, {})
  {
    DiffExact(t, t);
  }

  /** A node in the same place in both trees is never reported; one only in before is removed, one only in after updated. */
  lemma DiffCases(before: Tree, after: Tree, x: string)
    requires Wellformed(before) && Wellformed(after)
    ensures SamePlace(before, after, x) ==> x !in Diff(before, after).removed && x !in Diff(before, after).updated
    ensures x in before.nodes && x !in after.nodes ==> x in Diff(before, after).removed
    ensures x in after.nodes && x !in before.nodes ==> x in Diff(before, after).updated
    ensures Diff(before, after).removed <= before.nodes.Keys && Diff(before, after).updated <= after.nodes.Keys
  {
    DiffExact(before, after);
  }
}
