/**
 * The state of `ies::StringTree` (StringTree.hpp) and its const queries.
 *
 * A tree holds globally unique, non-empty names. `mNodes` maps each name to
 * its level, its children and its parent (the root's parent is the null
 * name ""); `mLevelToNodesMap` maps each level to the names at that level.
 * The two maps are kept in step by every mutator, which `Wellformed` states.
 * A const member function is a function of the tree's value; a thrown
 * `std::runtime_error` is an `Err` carrying the kind of failure.
 */
module StringTreeState {
  import opened Wrappers

  /** `NullNodeName`: the parent name recorded for the root. */
  const NullNodeName: string := ""

  /** `StringTreeNode`: `Level`, `ChildNodeNames` and `ParentNodeName`. */
  datatype TreeNode = TreeNode(level: int, children: set<string>, parent: string)

  /** `mRootName`, `mNodes` and `mLevelToNodesMap`. */
  datatype Tree = Tree(root: string, nodes: map<string, TreeNode>, levels: map<int, set<string>>)

  /** What a member throws about. */
  datatype TreeError =
    | EmptyRoot        // "root cannot be empty."
    | EmptyChild       // "childe node cannot be empty."
    | EmptyName        // a rename to the null name (see RenameNode)
    | NoSuchNode       // a name that is not in the tree
    | NodeExists       // a name that is already in the tree
    | RootRemoval      // "cannot remove root."
    | RootHasNoParent  // "cannot get root parent node."
    | NoSuchLevel      // a level that is not a key of the level map
    | InvalidRange     // an `IntegralRange` with begin > end, or an empty one where not allowed
    | OutOfRange       // `std::map::at` finding no entry

  // The invariant, one aspect at a time.

  /** The root is a non-empty name at level 0 whose parent is the null name. */
  ghost predicate RootOk(t: Tree)
  {
    t.root != NullNodeName && t.root in t.nodes
    && t.nodes[t.root].level == 0 && t.nodes[t.root].parent == NullNodeName
  }

  /** The null name is never a node. */
  ghost predicate NamesOk(t: Tree)
  {
    NullNodeName !in t.nodes
  }

  /**
   * The parent recorded for n. Facts about a parent are stated in terms of
   * this function, so that they are not instantiated again for the parent's
   * parent, and so on up the tree.
   */
  ghost function ParentOf(t: Tree, n: string): string
    requires n in t.nodes
  {
    t.nodes[n].parent
  }

  /** Every other node lists a parent that exists, knows it as a child, and is one level up. */
  ghost predicate ParentsOk(t: Tree)
  {
    forall n {:trigger ParentOf(t, n)} :: n in t.nodes && n != t.root ==>
      ParentOf(t, n) in t.nodes
      && n in t.nodes[ParentOf(t, n)].children
      && t.nodes[n].level == t.nodes[ParentOf(t, n)].level + 1
  }

  /** Every child exists and names its parent back. */
  ghost predicate ChildrenOk(t: Tree)
  {
    forall n, c :: n in t.nodes && c in t.nodes[n].children ==> c in t.nodes && ParentOf(t, c) == n
  }

  /** Each level's bucket holds exactly the nodes of that level. */
  ghost predicate LevelIndexOk(t: Tree)
  {
    (forall n :: n in t.nodes ==> t.nodes[n].level in t.levels && n in t.levels[t.nodes[n].level])
    && (forall l, n :: l in t.levels && n in t.levels[l] ==> n in t.nodes && t.nodes[n].level == l)
  }

  /** The levels are 0 up to the maximum with no gap, and no bucket is empty. */
  ghost predicate LevelsOk(t: Tree)
  {
    (forall l :: l in t.levels <==> 0 <= l < |t.levels|)
    && (forall l :: l in t.levels ==> t.levels[l] != {})
  }

  ghost predicate Wellformed(t: Tree)
  {
    RootOk(t) && NamesOk(t) && ParentsOk(t) && ChildrenOk(t) && LevelIndexOk(t) && LevelsOk(t)
  }

  /** The tree `StringTree(rootName)` builds: the root alone at level 0. */
  function Singleton(root: string): Tree
  {
    Tree(root, map[root := TreeNode(0, {}, NullNodeName)], map[0 := {root}])
  }

  /** `StringTree(rootName)`: an empty root name is refused. */
  function NewTree(root: string): (r: Result<Tree, TreeError>)
    ensures root == NullNodeName <==> r == Err(EmptyRoot)
    ensures r.Ok? ==> Wellformed(r.value) && r.value.root == root && r.value.nodes.Keys == {root}
  {
    if root == NullNodeName then Err(EmptyRoot) else SingletonWellformed(root); Ok(Singleton(root))
  }

  lemma SingletonWellformed(root: string)
    requires root != NullNodeName
    ensures Wellformed(Singleton(root))
  {
    var t := Singleton(root);
    assert t.nodes.Keys == {root};
    assert t.levels.Keys == {0};
    assert |t.levels| == 1;
    assert LevelsOk(t);
    assert ParentsOk(t);
  }

  // Const members.

  /** `HasNode`. */
  predicate HasNode(t: Tree, n: string)
  {
    n in t.nodes
  }

  /** `GetLevel`, through `GetNode`, which throws for an unknown name. */
  function GetLevel(t: Tree, n: string): (r: Result<int, TreeError>)
    ensures r.Ok? <==> n in t.nodes
    ensures r.Ok? ==> r.value == t.nodes[n].level
  {
    if n in t.nodes then Ok(t.nodes[n].level) else Err(NoSuchNode)
  }

  /** `GetChildNodes`, through `GetNode`. */
  function GetChildNodes(t: Tree, n: string): (r: Result<set<string>, TreeError>)
    ensures r.Ok? <==> n in t.nodes
    ensures r.Ok? ==> r.value == t.nodes[n].children
  {
    if n in t.nodes then Ok(t.nodes[n].children) else Err(NoSuchNode)
  }

  /** `GetParentNode`: the root is refused before the name is looked up. */
  function GetParentNode(t: Tree, n: string): (r: Result<string, TreeError>)
    ensures n == t.root ==> r == Err(RootHasNoParent)
    ensures n != t.root ==> (r.Ok? <==> n in t.nodes)
  {
    if n == t.root then Err(RootHasNoParent)
    else if n !in t.nodes then Err(NoSuchNode)
    else Ok(t.nodes[n].parent)
  }

  /** In a well-formed tree the parent is a node one level up that lists n as a child. */
  lemma ParentNodeFacts(t: Tree, n: string)
    requires Wellformed(t) && n in t.nodes && n != t.root
    ensures GetParentNode(t, n).Ok?
    ensures var p := GetParentNode(t, n).value;
      p in t.nodes && n in t.nodes[p].children && t.nodes[n].level == t.nodes[p].level + 1
  {
    assert ParentOf(t, n) == GetParentNode(t, n).value;
  }

  /**
   * `GetMaxLevel`: the last key of the level map. The map is never empty in
   * a well-formed tree (it holds level 0), so the throw for an empty map is
   * unreachable.
   */
  function GetMaxLevel(t: Tree): (m: int)
    requires Wellformed(t)
    ensures m in t.levels && 0 <= m && m + 1 == |t.levels|
    ensures forall l :: l in t.levels ==> l <= m
  {
    assert t.nodes[t.root].level in t.levels;
    |t.levels| - 1
  }

  /** Every node's level lies between 0 and the maximum level. */
  lemma LevelBounds(t: Tree, n: string)
    requires Wellformed(t) && n in t.nodes
    ensures 0 <= t.nodes[n].level <= GetMaxLevel(t)
  {
    assert t.nodes[n].level in t.levels;
  }

  /** The children of n are nodes one level down whose parent is n. */
  lemma ChildFacts(t: Tree, n: string, c: string)
    requires Wellformed(t) && n in t.nodes && c in t.nodes[n].children
    ensures c in t.nodes && c != t.root && t.nodes[c].parent == n
    ensures t.nodes[c].level == t.nodes[n].level + 1 < |t.levels|
  {
    assert t.nodes[c].level in t.levels;
  }

  /** The root is the only node at level 0. */
  lemma LevelZeroIsRoot(t: Tree, n: string)
    requires Wellformed(t) && n in t.nodes
    ensures t.nodes[n].level == 0 <==> n == t.root
  {
    if n != t.root {
      assert t.nodes[ParentOf(t, n)].level in t.levels;
    }
  }

  /**
   * `GetNodesByLevel(level)`: the bucket of a level that is a key. In a
   * well-formed tree those are the levels 0 to the maximum, and the bucket
   * holds exactly the nodes of that level.
   */
  function GetNodesByLevel(t: Tree, level: int): (r: Result<set<string>, TreeError>)
    ensures r.Ok? <==> level in t.levels
    ensures Wellformed(t) ==> (r.Ok? <==> 0 <= level <= GetMaxLevel(t))
    ensures Wellformed(t) && r.Ok? ==> r.value == AtLevel(t, t.nodes.Keys, level)
  {
    LevelBucket(t, level);
    if level in t.levels then Ok(t.levels[level]) else Err(NoSuchLevel)
  }

  lemma LevelBucket(t: Tree, level: int)
    ensures Wellformed(t) ==> (level in t.levels <==> 0 <= level <= GetMaxLevel(t))
    ensures Wellformed(t) && level in t.levels ==> t.levels[level] == AtLevel(t, t.nodes.Keys, level)
  {
    if Wellformed(t) && level in t.levels {
      var b := t.levels[level];
      forall n | n in t.nodes
        ensures n in b <==> t.nodes[n].level == level
      {
        assert t.nodes[n].level in t.levels;
      }
      assert b == AtLevel(t, t.nodes.Keys, level);
    }
  }

  /**
   * `GetAncestor`: `distance` steps of `GetParentNode`; a negative distance
   * is an invalid range. In a well-formed tree, walking up d steps from n
   * reaches the node d levels up, or fails at the root.
   */
  function GetAncestor(t: Tree, n: string, distance: int): (r: Result<string, TreeError>)
    ensures distance < 0 <==> r == Err(InvalidRange)
    ensures distance == 0 ==> r == Ok(n)
    ensures Wellformed(t) && n in t.nodes && 0 <= distance <= t.nodes[n].level ==>
      r.Ok? && r.value in t.nodes && t.nodes[r.value].level == t.nodes[n].level - distance
    ensures Wellformed(t) && n in t.nodes && distance > t.nodes[n].level ==> r == Err(RootHasNoParent)
    decreases if distance < 0 then 0 else distance
  {
    if distance < 0 then Err(InvalidRange)
    else if distance == 0 then Ok(n)
    else
      ParentStep(t, n);
      match GetParentNode(t, n)
      case Err(e) => Err(e)
      case Ok(p) => GetAncestor(t, p, distance - 1)
  }

  /** One step up a well-formed tree: the root fails at level 0, any other node has a parent one level up. */
  lemma ParentStep(t: Tree, n: string)
    ensures Wellformed(t) && n == t.root ==> t.nodes[n].level == 0
    ensures Wellformed(t) && n in t.nodes && n != t.root ==>
      GetParentNode(t, n).Ok? && GetParentNode(t, n).value in t.nodes
      && t.nodes[n].level == t.nodes[GetParentNode(t, n).value].level + 1
  {
    if Wellformed(t) && n in t.nodes && n != t.root {
      ParentNodeFacts(t, n);
    }
  }

  /** n and everything below it, as `GetSubtreeNodes` collects them. */
  function SubtreeNodes(t: Tree, n: string): set<string>
    requires Wellformed(t) && n in t.nodes
    decreases |t.levels| - t.nodes[n].level
  {
    {n} + (set c, m | c in t.nodes[n].children && m in SubtreeNodes(t, c) :: m)
  }

  /** `GetSubtreeNodes`: fails, through `GetChildNodes`, for an unknown name. */
  function GetSubtreeNodes(t: Tree, n: string): (r: Result<set<string>, TreeError>)
    requires Wellformed(t)
    ensures r.Ok? <==> n in t.nodes
    ensures r.Ok? ==> n in r.value && r.value <= t.nodes.Keys
  {
    if n in t.nodes then SubtreeNodesInTree(t, n); Ok(SubtreeNodes(t, n)) else Err(NoSuchNode)
  }

  /** Subtree members are nodes at or below n's level, n the only one at its level. */
  lemma {:induction false} SubtreeNodesInTree(t: Tree, n: string)
    requires Wellformed(t) && n in t.nodes
    ensures forall m :: m in SubtreeNodes(t, n) ==>
      m in t.nodes && t.nodes[m].level >= t.nodes[n].level && (t.nodes[m].level == t.nodes[n].level ==> m == n)
    decreases |t.levels| - t.nodes[n].level
  {
    forall c | c in t.nodes[n].children
      ensures forall m :: m in SubtreeNodes(t, c) ==> m in t.nodes && t.nodes[m].level > t.nodes[n].level
    {
      ChildFacts(t, n, c);
      SubtreeNodesInTree(t, c);
    }
  }

  /** A subtree is closed under taking children. */
  lemma {:induction false} SubtreeClosed(t: Tree, n: string, m: string, c: string)
    requires Wellformed(t) && n in t.nodes
    requires m in SubtreeNodes(t, n) && m in t.nodes && c in t.nodes[m].children
    ensures c in SubtreeNodes(t, n)
    decreases |t.levels| - t.nodes[n].level
  {
    if m != n {
      var k :| k in t.nodes[n].children && m in SubtreeNodes(t, k);
      ChildFacts(t, n, k);
      SubtreeClosed(t, k, m, c);
    } else {
      ChildFacts(t, n, c);
      assert c in SubtreeNodes(t, c);
    }
  }

  /** Every member but n has its parent in the subtree. */
  lemma {:induction false} SubtreeParent(t: Tree, n: string, m: string)
    requires Wellformed(t) && n in t.nodes
    requires m in SubtreeNodes(t, n) && m != n
    ensures m in t.nodes && m != t.root && t.nodes[m].parent in SubtreeNodes(t, n)
    decreases |t.levels| - t.nodes[n].level
  {
    var k :| k in t.nodes[n].children && m in SubtreeNodes(t, k);
    ChildFacts(t, n, k);
    if m != k {
      SubtreeParent(t, k, m);
    } else {
      assert t.nodes[m].parent == n;
    }
  }

  /** m is in n's subtree exactly when walking up from m to n's level reaches n. */
  lemma {:induction false} AncestorIffSubtree(t: Tree, n: string, m: string, d: int)
    requires Wellformed(t) && n in t.nodes && m in t.nodes
    requires d == t.nodes[m].level - t.nodes[n].level
    ensures m in SubtreeNodes(t, n) <==> d >= 0 && GetAncestor(t, m, d) == Ok(n)
    decreases if d < 0 then 0 else d
  {
    SubtreeNodesInTree(t, n);
    if d > 0 {
      if m == t.root {
        LevelBounds(t, n);
      } else {
        ParentNodeFacts(t, m);
        var p := t.nodes[m].parent;
        AncestorIffSubtree(t, n, p, d - 1);
        if m in SubtreeNodes(t, n) {
          SubtreeParent(t, n, m);
        } else if p in SubtreeNodes(t, n) {
          SubtreeClosed(t, n, p, m);
        }
      }
    }
  }

  /** Walking up d1 steps and then d2 more is walking up d1 + d2 steps. */
  lemma {:induction false} AncestorCompose(t: Tree, n: string, a: string, d1: int, d2: int)
    requires 0 <= d1 && 0 <= d2 && GetAncestor(t, n, d1) == Ok(a)
    ensures GetAncestor(t, n, d1 + d2) == GetAncestor(t, a, d2)
    decreases d1
  {
    if d1 > 0 {
      AncestorCompose(t, GetParentNode(t, n).value, a, d1 - 1, d2);
    }
  }

  /** Whatever lies below a member of n's subtree is in n's subtree too. */
  lemma {:induction false} DescendantOfMember(t: Tree, n: string, b: string, x: string, e: int)
    requires Wellformed(t) && n in t.nodes && b in SubtreeNodes(t, n) && x in t.nodes
    requires 0 <= e && GetAncestor(t, x, e) == Ok(b)
    ensures x in SubtreeNodes(t, n)
    decreases e
  {
    if e > 0 {
      ParentNodeFacts(t, x);
      var p := GetParentNode(t, x).value;
      DescendantOfMember(t, n, b, p, e - 1);
      SubtreeClosed(t, n, p, x);
    }
  }

  /** The root's subtree is the whole tree. */
  lemma SubtreeOfRoot(t: Tree)
    requires Wellformed(t)
    ensures SubtreeNodes(t, t.root) == t.nodes.Keys
  {
    SubtreeNodesInTree(t, t.root);
    forall m | m in t.nodes
      ensures m in SubtreeNodes(t, t.root)
    {
      var d := t.nodes[m].level;
      LevelBounds(t, m);
      LevelZeroIsRoot(t, GetAncestor(t, m, d).value);
      AncestorIffSubtree(t, t.root, m, d);
    }
  }

  /** The childless nodes below n, n itself when it has no children, as `GetLeafNodes` collects them. */
  function LeafNodes(t: Tree, n: string): set<string>
    requires Wellformed(t) && n in t.nodes
    decreases |t.levels| - t.nodes[n].level
  {
    if t.nodes[n].children == {} then {n}
    else set c, m | c in t.nodes[n].children && m in LeafNodes(t, c) :: m
  }

  /** `GetLeafNodes`: fails, through `GetChildNodes`, for an unknown name. */
  function GetLeafNodes(t: Tree, n: string): (r: Result<set<string>, TreeError>)
    requires Wellformed(t)
    ensures r.Ok? <==> n in t.nodes
  {
    if n in t.nodes then Ok(LeafNodes(t, n)) else Err(NoSuchNode)
  }

  /** The childless members of n's subtree. */
  ghost function ChildlessIn(t: Tree, s: set<string>): set<string>
  {
    set m | m in s && m in t.nodes && t.nodes[m].children == {}
  }

  /** A member of a child's subtree is a member of n's. */
  lemma SubtreeOfChild(t: Tree, n: string, c: string, m: string)
    requires Wellformed(t) && n in t.nodes && c in t.nodes[n].children
    requires c in t.nodes && m in SubtreeNodes(t, c)
    ensures m in SubtreeNodes(t, n)
  {
  }

  /** A member of n's subtree other than n is in some child's subtree. */
  lemma SubtreeViaChild(t: Tree, n: string, m: string) returns (c: string)
    requires Wellformed(t) && n in t.nodes && m in SubtreeNodes(t, n) && m != n
    ensures c in t.nodes[n].children && c in t.nodes && m in SubtreeNodes(t, c)
  {
    c :| c in t.nodes[n].children && m in SubtreeNodes(t, c);
  }

  /** The leaves of n are exactly the childless members of its subtree. */
  lemma {:induction false} LeafNodesAreChildlessSubtreeNodes(t: Tree, n: string)
    requires Wellformed(t) && n in t.nodes
    ensures LeafNodes(t, n) == ChildlessIn(t, SubtreeNodes(t, n))
    decreases |t.levels| - t.nodes[n].level
  {
    if t.nodes[n].children == {} {
      assert SubtreeNodes(t, n) == {n};
    } else {
      forall c | c in t.nodes[n].children
        ensures c in t.nodes && LeafNodes(t, c) == ChildlessIn(t, SubtreeNodes(t, c))
      {
        ChildFacts(t, n, c);
        LeafNodesAreChildlessSubtreeNodes(t, c);
      }
      LeavesAreChildless(t, n);
      ChildlessAreLeaves(t, n);
    }
  }

  /** One direction of the step: leaves of children are childless members of n's subtree. */
  lemma LeavesAreChildless(t: Tree, n: string)
    requires Wellformed(t) && n in t.nodes && t.nodes[n].children != {}
    requires forall c :: c in t.nodes[n].children ==>
      c in t.nodes && LeafNodes(t, c) == ChildlessIn(t, SubtreeNodes(t, c))
    ensures LeafNodes(t, n) <= ChildlessIn(t, SubtreeNodes(t, n))
  {
    forall m | m in LeafNodes(t, n)
      ensures m in ChildlessIn(t, SubtreeNodes(t, n))
    {
      var c :| c in t.nodes[n].children && m in LeafNodes(t, c);
      SubtreeOfChild(t, n, c, m);
    }
  }

  /** The other direction: a childless member of n's subtree is a leaf of some child. */
  lemma ChildlessAreLeaves(t: Tree, n: string)
    requires Wellformed(t) && n in t.nodes && t.nodes[n].children != {}
    requires forall c :: c in t.nodes[n].children ==>
      c in t.nodes && LeafNodes(t, c) == ChildlessIn(t, SubtreeNodes(t, c))
    ensures ChildlessIn(t, SubtreeNodes(t, n)) <= LeafNodes(t, n)
  {
    forall m | m in ChildlessIn(t, SubtreeNodes(t, n))
      ensures m in LeafNodes(t, n)
    {
      var c := SubtreeViaChild(t, n, m);
      assert m in LeafNodes(t, c);
    }
  }

  /** `GetNodesByLevel(context, level)`: relative to the level of a context node. */
  function GetContextNodesByLevel(t: Tree, context: string, level: int): (r: Result<set<string>, TreeError>)
    ensures context !in t.nodes ==> r == Err(NoSuchNode)
  {
    if context !in t.nodes then Err(NoSuchNode)
    else
      var contextLevel := t.nodes[context].level;
      if level <= contextLevel then
        match GetAncestor(t, context, contextLevel - level)
        case Err(e) => Err(e)
        case Ok(a) => Ok({a})
      else
        match GetNodesByLevel(t, level)
        case Err(e) => Err(e)
        case Ok(nodes) => Ok(set n | n in nodes && GetAncestor(t, n, level - contextLevel) == Ok(context))
  }

  /** The members of s at one level. */
  ghost function AtLevel(t: Tree, s: set<string>, level: int): set<string>
  {
    set n | n in s && n in t.nodes && t.nodes[n].level == level
  }

  /** At or above the context's level: the one ancestor at that level; walking past the root fails. */
  lemma ContextAtOrAbove(t: Tree, context: string, level: int)
    requires Wellformed(t) && context in t.nodes && level <= t.nodes[context].level
    ensures level < 0 ==> GetContextNodesByLevel(t, context, level) == Err(RootHasNoParent)
    ensures 0 <= level ==>
      exists a :: GetContextNodesByLevel(t, context, level) == Ok({a})
        && a in t.nodes && t.nodes[a].level == level && context in SubtreeNodes(t, a)
  {
    var d := t.nodes[context].level - level;
    var r := GetContextNodesByLevel(t, context, level);
    if 0 <= level {
      var a := GetAncestor(t, context, d).value;
      AncestorIffSubtree(t, a, context, d);
      assert r == Ok({a});
    } else {
      assert r == Err(RootHasNoParent);
    }
  }

  /** Below the context's level: its subtree's members at that level; a level past the maximum fails. */
  lemma ContextBelow(t: Tree, context: string, level: int)
    requires Wellformed(t) && context in t.nodes && t.nodes[context].level < level
    ensures level <= GetMaxLevel(t) ==>
      GetContextNodesByLevel(t, context, level) == Ok(AtLevel(t, SubtreeNodes(t, context), level))
    ensures level > GetMaxLevel(t) ==> GetContextNodesByLevel(t, context, level) == Err(NoSuchLevel)
  {
    if level <= GetMaxLevel(t) {
      var contextLevel := t.nodes[context].level;
      var r := GetContextNodesByLevel(t, context, level);
      var sub := SubtreeNodes(t, context);
      SubtreeNodesInTree(t, context);
      forall n | n in t.nodes && t.nodes[n].level == level
        ensures n in r.value <==> n in sub
      {
        AncestorIffSubtree(t, context, n, level - contextLevel);
      }
      assert r.value == AtLevel(t, sub, level);
    }
  }

  /**
   * `GetNodesByLevel(context, level)` in every case: the ancestor at or above
   * the context's level, the subtree's members below it, and a failure for a
   * negative level or one past the maximum.
   */
  lemma ContextNodesByLevel(t: Tree, context: string, level: int)
    requires Wellformed(t) && context in t.nodes
    ensures level < 0 ==> GetContextNodesByLevel(t, context, level) == Err(RootHasNoParent)
    ensures 0 <= level <= t.nodes[context].level ==>
      exists a :: GetContextNodesByLevel(t, context, level) == Ok({a})
        && a in t.nodes && t.nodes[a].level == level && context in SubtreeNodes(t, a)
    ensures t.nodes[context].level < level <= GetMaxLevel(t) ==>
      GetContextNodesByLevel(t, context, level) == Ok(AtLevel(t, SubtreeNodes(t, context), level))
    ensures level > GetMaxLevel(t) ==> GetContextNodesByLevel(t, context, level) == Err(NoSuchLevel)
  {
    LevelBounds(t, context);
    if level <= t.nodes[context].level {
      ContextAtOrAbove(t, context, level);
    } else {
      ContextBelow(t, context, level);
    }
  }

  /** Without a context the levels are the root's: `GetNodesByLevel(l)` is `GetNodesByLevel(root, l)`. */
  lemma NodesByLevelFromRoot(t: Tree, level: int)
    requires Wellformed(t)
    ensures GetNodesByLevel(t, level) == GetContextNodesByLevel(t, t.root, level)
      || (GetNodesByLevel(t, level).Err? && GetContextNodesByLevel(t, t.root, level).Err?)
  {
    if level == 0 {
      ContextAtOrAbove(t, t.root, level);
      var a :| GetContextNodesByLevel(t, t.root, level) == Ok({a}) && a in t.nodes && t.nodes[a].level == 0;
      LevelZeroIsRoot(t, a);
      forall n | n in t.levels[0]
        ensures n == t.root
      {
        LevelZeroIsRoot(t, n);
      }
      assert t.root in t.levels[0];
      assert t.levels[0] == {t.root};
    } else if level < 0 {
      ContextAtOrAbove(t, t.root, level);
    } else {
      ContextBelow(t, t.root, level);
      SubtreeOfRoot(t);
    }
  }
}
