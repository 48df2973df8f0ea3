/**
 * The text form of a `StringTree` (StringTree.cpp): `ToString`, which writes
 * the canonical tree spec, and the spec constructor `StringTree(rootName,
 * treeSpec)`, which reads one.
 *
 * A tree spec is a list of groups `{parent, child, child}`; the text between
 * groups, such as a level annotation `[1] `, is ignored. `ToString` writes,
 * level by level from the root's down to the last level with children, the
 * group of every node that has children, nodes and children in ascending
 * order.
 */
module StringTreeText {
  import opened Wrappers
  import opened StringTreeState
  import StringTreeEdit
  import opened StringOrder
  import NumberText
  import SplitString

  /** The separators of the first split: groups are what lies between braces. */
  const GroupBraces: set<char> := {'{', '}'}

  /** The separators of the second split: names within a group. */
  const NameSeparators: set<char> := {',', ' '}

  // ToString

  /** ", c" for each child of q, in order. */
  function ChildList(q: seq<string>): string
  {
    if q == [] then "" else ", " + q[0] + ChildList(q[1..])
  }

  /** The group of n: "{n, c1, c2}", the children in ascending order. */
  ghost function Group(t: Tree, n: string): string
    requires n in t.nodes
  {
    "{" + n + ChildList(Sorted(t.nodes[n].children)) + "}"
  }

  /**
   * The groups of the nodes of q that have children, in the order of q, a
   * space before each but the first; `first` holds until one is written.
   */
  ghost function Groups(t: Tree, q: seq<string>, first: bool): string
  {
    if q == [] then ""
    else if q[0] !in t.nodes || t.nodes[q[0]].children == {} then Groups(t, q[1..], first)
    else (if first then "" else " ") + Group(t, q[0]) + Groups(t, q[1..], false)
  }

  /** What precedes the groups of a level: a space unless it is level 0, then "[level] " when annotated. */
  function LevelHeader(level: int, annotated: bool): string
  {
    (if level != 0 then " " else "") + (if annotated then "[" + NumberText.IntToString(level) + "] " else "")
  }

  /** One level of the canonical spec: its header, then the groups of its nodes in ascending order. */
  ghost function LevelText(t: Tree, level: int, annotated: bool): string
    requires level in t.levels
  {
    LevelHeader(level, annotated) + Groups(t, Sorted(t.levels[level]), true)
  }

  /** The text of levels 0 to k - 1. */
  ghost function Canonical(t: Tree, k: int, annotated: bool): string
    requires LevelsOk(t) && 0 <= k < |t.levels|
  {
    if k == 0 then "" else Canonical(t, k - 1, annotated) + LevelText(t, k - 1, annotated)
  }

  /**
   * `ToString(tree, levelAnnotated)`: the levels `IntRange{0, GetMaxLevel()}`
   * visits, 0 up to but not including the maximum. That range refuses to be
   * empty, so a tree of the root alone fails; see `ToStringAllowEmpty`.
   */
  ghost function ToString(t: Tree, annotated: bool): (r: Result<string, TreeError>)
    requires Wellformed(t)
    ensures r.Err? <==> t.nodes.Keys == {t.root}
    ensures r.Err? ==> r.error == InvalidRange
  {
    LevelZeroIsRoot(t, t.root);
    if GetMaxLevel(t) == 0 then
      OnlyRoot(t);
      Err(InvalidRange)
    else
      LevelOneExists(t);
      Ok(Canonical(t, GetMaxLevel(t), annotated))
  }

  /** With the level range allowed to be empty: a tree of the root alone is written as "". */
  ghost function ToStringAllowEmpty(t: Tree, annotated: bool): (r: string)
    requires Wellformed(t)
    ensures ToString(t, annotated).Ok? ==> ToString(t, annotated).value == r
    ensures t.nodes.Keys == {t.root} ==> r == ""
  {
    LevelBounds(t, t.root);
    if GetMaxLevel(t) == 0 then OnlyRoot(t); "" else Canonical(t, GetMaxLevel(t), annotated)
  }

  /** With level 0 the only level, the root is the only node. */
  lemma OnlyRoot(t: Tree)
    requires Wellformed(t)
    ensures GetMaxLevel(t) == 0 <==> t.nodes.Keys == {t.root}
  {
    if GetMaxLevel(t) == 0 {
      forall m | m in t.nodes
        ensures m == t.root
      {
        LevelBounds(t, m);
        LevelZeroIsRoot(t, m);
      }
    } else {
      LevelOneExists(t);
    }
  }

  /** A tree with a level beyond the root's has a node at level 1, which is not the root. */
  lemma LevelOneExists(t: Tree)
    requires Wellformed(t) && GetMaxLevel(t) > 0
    ensures exists m :: m in t.nodes && m != t.root
  {
    assert 1 in t.levels;
    var m :| m in t.levels[1];
    assert t.nodes[m].level == 1;
  }

  // The spec constructor

  /**
   * `StringTree(rootName, treeSpec)`: the root alone, then for each brace
   * group that has no '[' and at least one name, every later name of the
   * group created as a child of the first; a group of one name alone has an
   * empty child range and fails. The first failure is the result.
   */
  function FromSpec(root: string, spec: string): (r: Result<Tree, TreeError>)
    ensures root == NullNodeName ==> r == Err(EmptyRoot)
    ensures r.Ok? ==> Wellformed(r.value) && r.value.root == root
    ensures r.Ok? ==> forall g :: g in SplitString.Runs(GroupBraces, spec) ==> !OneNameGroup(g)
  {
    match NewTree(root)
    case Err(e) => Err(e)
    case Ok(t) => BuildGroupsWellformed(t, SplitString.Runs(GroupBraces, spec)); BuildSpec(t, spec)
  }

  /** The loop over the groups of a spec, from a given tree. */
  function BuildSpec(t: Tree, spec: string): Result<Tree, TreeError>
  {
    BuildGroups(t, SplitString.Runs(GroupBraces, spec))
  }

  /**
   * The loop over groups: a group holding '[' or no name is skipped. The
   * children are visited over `IndexRange{1, names}`, a range that may not
   * be empty, so a group of one name fails before any child is created.
   */
  function BuildGroups(t: Tree, groups: seq<string>): Result<Tree, TreeError>
    decreases |groups|
  {
    if groups == [] then Ok(t)
    else if '[' in groups[0] then BuildGroups(t, groups[1..])
    else
      var names := SplitString.Runs(NameSeparators, groups[0]);
      if names == [] then BuildGroups(t, groups[1..])
      else if |names| == 1 then Err(InvalidRange)
      else
        match AddChildren(t, names[0], names[1..])
        case Err(e) => Err(e)
        case Ok(t2) => BuildGroups(t2, groups[1..])
  }

  /** The loop over one group: `CreateChildNode(p, c)` for each c in turn. */
  function AddChildren(t: Tree, p: string, cs: seq<string>): Result<Tree, TreeError>
    decreases |cs|
  {
    if cs == [] then Ok(t)
    else
      match StringTreeEdit.CreateChild(t, p, cs[0])
      case Err(e) => Err(e)
      case Ok(t2) => AddChildren(t2, p, cs[1..])
  }

  /**
   * Adding the children of a group keeps the invariant and the root, adds
   * exactly the group's children; it fails exactly when a child is empty or
   * already present (or repeated), or the parent is unknown.
   */
  lemma {:induction false} AddChildrenWellformed(t: Tree, p: string, cs: seq<string>)
    requires Wellformed(t)
    ensures AddChildren(t, p, cs).Ok? ==> (Wellformed(AddChildren(t, p, cs).value)
      && AddChildren(t, p, cs).value.root == t.root
      && (forall x :: x in AddChildren(t, p, cs).value.nodes <==> x in t.nodes || x in cs))
    ensures AddChildren(t, p, cs).Ok? <==>
      (cs == [] || p in t.nodes) && ChildrenAddable(t, cs)
    decreases |cs|
  {
    if cs != [] {
      var r := StringTreeEdit.CreateChild(t, p, cs[0]);
      if r.Ok? {
        var t2 := r.value;
        FirstChildAdded(t, p, cs, t2);
        AddChildrenWellformed(t2, p, cs[1..]);
        AddableStep(t, t2, cs);
      } else {
        assert !ChildrenAddable(t, cs) || p !in t.nodes by {
          if p in t.nodes {
            assert cs[0] == NullNodeName || cs[0] in t.nodes;
          }
        }
      }
    }
  }

  /** Creating the first child of a group keeps the invariant and adds that child alone. */
  lemma FirstChildAdded(t: Tree, p: string, cs: seq<string>, t2: Tree)
    requires Wellformed(t) && cs != [] && StringTreeEdit.CreateChild(t, p, cs[0]) == Ok(t2)
    ensures Wellformed(t2) && t2.root == t.root && p in t.nodes && p in t2.nodes
    ensures cs[0] != NullNodeName && cs[0] !in t.nodes
    ensures forall x :: x in t2.nodes <==> x in t.nodes || x == cs[0]
  {
    StringTreeEdit.CreateChildWellformed(t, p, cs[0]);
    StringTreeEdit.CreateChildEffect(t, p, cs[0]);
  }

  /** Every name is non-empty, new, and not repeated earlier in the list. */
  ghost predicate ChildrenAddable(t: Tree, cs: seq<string>)
  {
    forall i :: 0 <= i < |cs| ==> cs[i] != NullNodeName && cs[i] !in t.nodes && cs[i] !in cs[..i]
  }

  lemma AddableStep(t: Tree, t2: Tree, cs: seq<string>)
    requires cs != [] && cs[0] != NullNodeName && cs[0] !in t.nodes
    requires forall x :: x in t2.nodes <==> x in t.nodes || x == cs[0]
    ensures ChildrenAddable(t, cs) <==> ChildrenAddable(t2, cs[1..])
  {
    if ChildrenAddable(t2, cs[1..]) {
      forall i | 0 <= i < |cs|
        ensures cs[i] != NullNodeName && cs[i] !in t.nodes && cs[i] !in cs[..i]
      {
        if i > 0 {
          assert cs[i] == cs[1..][i - 1];
          assert cs[..i] == [cs[0]] + cs[1..][..i - 1];
        } else {
          assert cs[..i] == [];
        }
      }
    }
    if ChildrenAddable(t, cs) {
      forall i | 0 <= i < |cs| - 1
        ensures cs[1..][i] != NullNodeName && cs[1..][i] !in t2.nodes && cs[1..][i] !in cs[1..][..i]
      {
        assert cs[1..][i] == cs[i + 1];
        assert cs[..i + 1] == [cs[0]] + cs[1..][..i];
        assert cs[0] in cs[..i + 1];
      }
    }
  }

  /** A group the constructor refuses: no '[' and exactly one name, so its child range {1, 1} is empty. */
  predicate OneNameGroup(g: string)
  {
    '[' !in g && |SplitString.Runs(NameSeparators, g)| == 1
  }

  /**
   * The loop over groups keeps the invariant and the root, and it succeeds
   * only when no group is a one-name group; the first group of one name
   * fails with the range's error.
   */
  lemma {:induction false} BuildGroupsWellformed(t: Tree, groups: seq<string>)
    requires Wellformed(t)
    ensures BuildGroups(t, groups).Ok? ==>
      (Wellformed(BuildGroups(t, groups).value) && BuildGroups(t, groups).value.root == t.root)
    ensures BuildGroups(t, groups).Ok? ==> forall i :: 0 <= i < |groups| ==> !OneNameGroup(groups[i])
    ensures groups != [] && OneNameGroup(groups[0]) ==> BuildGroups(t, groups) == Err(InvalidRange)
    decreases |groups|
  {
    if groups != [] {
      var next := t;
      if '[' !in groups[0] {
        var names := SplitString.Runs(NameSeparators, groups[0]);
        if |names| > 1 {
          AddChildrenWellformed(t, names[0], names[1..]);
          var r := AddChildren(t, names[0], names[1..]);
          if r.Ok? {
            next := r.value;
          }
        }
      }
      if BuildGroups(t, groups).Ok? {
        assert BuildGroups(t, groups) == BuildGroups(next, groups[1..]);
        BuildGroupsWellformed(next, groups[1..]);
        forall i | 1 <= i < |groups|
          ensures !OneNameGroup(groups[i])
        {
          assert groups[i] == groups[1..][i - 1];
        }
      }
    }
  }
}
