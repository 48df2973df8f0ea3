/**
 * The spec constructor does not need the canonical order: the groups of a
 * tree may come in any order in which each node's own group follows the
 * group that creates it (level-sorted, depth-first, ...), and they still
 * build the tree.
 */
module StringTreeSpecOrder {
  import opened Wrappers
  import opened StringTreeState
  import opened StringTreeText
  import opened StringTreeRoundTrip
  import SplitString

  /**
   * An order of groups that builds t: distinct nodes of t, every node with
   * children among them, and each one the root or a child of an earlier one.
   */
  ghost predicate CreationOrder(t: Tree, order: seq<string>)
  {
    (forall i, j :: 0 <= i < j < |order| ==> order[i] != order[j])
    && (forall i :: 0 <= i < |order| ==> order[i] in t.nodes)
    && (forall m :: m in t.nodes && t.nodes[m].children != {} ==> m in order)
    && (forall i :: 0 <= i < |order| ==> CreatedBefore(t, order, i))
  }

  /**
   * order[i] is a node, and the root or a child of an earlier node. Kept apart so that
   * the facts about order[i] are drawn only where a proof asks for them.
   */
  ghost predicate CreatedBefore(t: Tree, order: seq<string>, i: nat)
    requires i < |order|
  {
    order[i] in t.nodes && (order[i] == t.root || ParentOf(t, order[i]) in order[..i])
  }

  /** The nodes created once the groups of `done` are read: the root and the children of `done`. */
  ghost function Cut(t: Tree, done: seq<string>): set<string>
  {
    set m | m in t.nodes && (m == t.root || ParentOf(t, m) in done)
  }

  /**
   * Before the group of order[k]: the nodes created so far are closed under
   * parents, order[k] is one of them and none of its children is, and its
   * group adds exactly its children.
   */
  lemma CutStep(t: Tree, order: seq<string>, k: nat)
    requires Wellformed(t) && CreationOrder(t, order) && k < |order|
    ensures Closed(t, Cut(t, order[..k]))
    ensures order[k] in Cut(t, order[..k])
    ensures forall c :: c in t.nodes[order[k]].children ==> c !in Cut(t, order[..k])
    ensures Cut(t, order[..k]) + t.nodes[order[k]].children == Cut(t, order[..k + 1])
  {
    CutClosed(t, order, k);
    CutFresh(t, order, k);
    CutGrows(t, order, k);
  }

  lemma CutClosed(t: Tree, order: seq<string>, k: nat)
    requires Wellformed(t) && CreationOrder(t, order) && k <= |order|
    ensures Closed(t, Cut(t, order[..k]))
  {
    var S := Cut(t, order[..k]);
    assert t.root in S;
    forall m | m in S && m != t.root
      ensures ParentOf(t, m) in S
    {
      ParentNodeFacts(t, m);
      CutParent(t, order, k, m);
    }
  }

  /** The parent of a created node other than the root is itself created. */
  lemma CutParent(t: Tree, order: seq<string>, k: nat, m: string)
    requires CreationOrder(t, order) && k <= |order|
    requires m in Cut(t, order[..k]) && m != t.root && ParentOf(t, m) in t.nodes
    ensures ParentOf(t, m) in Cut(t, order[..k])
  {
    var p := ParentOf(t, m);
    var j :| 0 <= j < k && order[..k][j] == p;
    assert order[j] == p && CreatedBefore(t, order, j);
    if p != t.root {
      var i :| 0 <= i < j && order[..j][i] == ParentOf(t, p);
      assert order[..k][i] == ParentOf(t, p);
    }
  }

  lemma CutFresh(t: Tree, order: seq<string>, k: nat)
    requires Wellformed(t) && CreationOrder(t, order) && k < |order|
    ensures order[k] in Cut(t, order[..k])
    ensures forall c :: c in t.nodes[order[k]].children ==> c !in Cut(t, order[..k])
  {
    var n := order[k];
    assert CreatedBefore(t, order, k);
    assert n !in order[..k] by {
      forall j | 0 <= j < k
        ensures order[..k][j] != n
      {
        assert order[j] != order[k];
      }
    }
    forall c | c in t.nodes[n].children
      ensures c !in Cut(t, order[..k])
    {
      ChildFacts(t, n, c);
    }
  }

  lemma CutGrows(t: Tree, order: seq<string>, k: nat)
    requires Wellformed(t) && k < |order| && order[k] in t.nodes
    ensures Cut(t, order[..k]) + t.nodes[order[k]].children == Cut(t, order[..k + 1])
  {
    var n := order[k];
    assert order[..k + 1] == order[..k] + [n];
    forall m
      ensures m in Cut(t, order[..k]) + t.nodes[n].children <==> m in Cut(t, order[..k + 1])
    {
      if m in t.nodes[n].children {
        ChildFacts(t, n, m);
      }
      if m in t.nodes && m != t.root && ParentOf(t, m) == n {
        ParentNodeFacts(t, m);
      }
    }
  }

  /** A node without children adds nothing to the cut. */
  lemma CutLeaf(t: Tree, order: seq<string>, k: nat)
    requires Wellformed(t) && k < |order| && order[k] in t.nodes && t.nodes[order[k]].children == {}
    ensures Cut(t, order[..k + 1]) == Cut(t, order[..k])
  {
    assert order[..k + 1] == order[..k] + [order[k]];
    forall m | m in t.nodes && m != t.root
      ensures ParentOf(t, m) != order[k]
    {
      ParentNodeFacts(t, m);
    }
  }

  /** Reading the groups of order[k..] after those of order[..k] builds the cut of the whole order. */
  lemma {:induction false} OrderPartial(t: Tree, order: seq<string>, k: nat, first: bool, u: Tree) returns (v: Tree)
    requires Wellformed(t) && PlainNames(t) && CreationOrder(t, order) && k <= |order|
    requires IsPartial(t, Cut(t, order[..k]), u)
    ensures BuildSpec(u, Groups(t, order[k..], first)) == Ok(v) && IsPartial(t, Cut(t, order), v)
    decreases |order| - k
  {
    if k == |order| {
      assert order[k..] == [] && order[..k] == order;
      SplitString.RunsOfSeparatorsOnly(GroupBraces, "");
      v := u;
    } else {
      var n := order[k];
      assert order[k..][1..] == order[k + 1..];
      if t.nodes[n].children == {} {
        CutLeaf(t, order, k);
        v := OrderPartial(t, order, k + 1, first, u);
      } else {
        CutStep(t, order, k);
        var w := GroupPartial(t, Cut(t, order[..k]), n, first, u);
        v := OrderPartial(t, order, k + 1, false, w);
        GroupEnds(t, n, first);
        BuildSpecAfterGroup(u, (if first then "" else " ") + Group(t, n), Groups(t, order[k + 1..], false), w);
      }
    }
  }

  /** A creation order reaches every node. */
  lemma CutAll(t: Tree, order: seq<string>)
    requires Wellformed(t) && CreationOrder(t, order)
    ensures Cut(t, order) == t.nodes.Keys
  {
    forall m | m in t.nodes && m != t.root
      ensures ParentOf(t, m) in order
    {
      ParentNodeFacts(t, m);
    }
  }

  /**
   * `StringTree(rootName, treeSpec)` builds t from the groups of t written
   * in any creation order, not only the canonical one.
   */
  lemma FromSpecAnyOrder(t: Tree, order: seq<string>)
    requires Wellformed(t) && PlainNames(t) && CreationOrder(t, order)
    ensures FromSpec(t.root, Groups(t, order, true)) == Ok(t)
  {
    LevelBounds(t, t.root);
    SingletonWellformed(t.root);
    PartialRoot(t);
    UptoOne(t);
    assert order[..0] == [];
    CutEmpty(t);
    assert order[0..] == order;
    var v := OrderPartial(t, order, 0, true, Singleton(t.root));
    CutAll(t, order);
    PartialAllNodes(t, t.nodes.Keys, v);
    PartialAllLevels(t, t.nodes.Keys, v);
  }

  /** Before any group only the root is created. */
  lemma CutEmpty(t: Tree)
    requires RootOk(t)
    ensures Cut(t, []) == {t.root}
  {
  }
}
