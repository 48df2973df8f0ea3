/**
 * `ToString` and the spec constructor are inverse to each other: reading
 * back the canonical spec of a tree rebuilds that tree, whichever way the
 * tree was built, when its names hold none of the characters the spec
 * format reserves.
 *
 * The proof follows the reader through the text. After the groups of the
 * levels above level l the tree built so far is `Partial(t, S)`: the tree
 * cut down to the nodes S of those levels and the level below them.
 */
module StringTreeRoundTrip {
  import opened Wrappers
  import opened StringTreeState
  import StringTreeEdit
  import opened StringOrder
  import NumberText
  import SplitString
  import opened StringTreeText

  /** The characters a name must avoid to be read back: braces, the name separators and '['. */
  const Reserved: set<char> := {'{', '}', ',', ' ', '['}

  ghost predicate PlainName(n: string)
  {
    n != "" && forall c :: c in n ==> c !in Reserved
  }

  ghost predicate PlainNames(t: Tree)
  {
    forall n :: n in t.nodes ==> PlainName(n)
  }

  // Reading the pieces of the text

  /** Characters that neither split a group nor make it skipped. */
  ghost predicate GroupText(s: string)
  {
    forall c :: c in s ==> c !in GroupBraces && c != '['
  }

  /** The names of a child list are its children, and it is group text. */
  lemma {:induction false} ChildListRuns(q: seq<string>)
    requires forall i :: 0 <= i < |q| ==> PlainName(q[i])
    ensures SplitString.Runs(NameSeparators, ChildList(q)) == q
    ensures GroupText(ChildList(q))
    ensures q != [] ==> ChildList(q)[0] == ','
    decreases |q|
  {
    if q != [] {
      var rest := ChildList(q[1..]);
      ChildListRuns(q[1..]);
      assert PlainName(q[0]);
      assert ChildList(q) == (", " + q[0]) + rest;
      SplitString.RunsAppend(NameSeparators, ", " + q[0], rest);
      SplitString.RunsAppend(NameSeparators, ", ", q[0]);
      SplitString.RunsOfSeparatorsOnly(NameSeparators, ", ");
      SplitString.RunsOfRun(NameSeparators, q[0]);
      assert q == [q[0]] + q[1..];
    }
  }

  /** Text between a pair of braces, without braces of its own, is one group. */
  lemma BracedRuns(body: string)
    requires |body| > 0 && GroupText(body)
    ensures SplitString.Runs(GroupBraces, "{" + body + "}") == [body]
  {
    assert "{" + body + "}" == "{" + (body + "}");
    assert SplitString.NoSeparatorIn(GroupBraces, body);
    SplitString.RunsAppend(GroupBraces, "{", body + "}");
    SplitString.RunsAppend(GroupBraces, body, "}");
    SplitString.RunsOfSeparatorsOnly(GroupBraces, "{");
    SplitString.RunsOfSeparatorsOnly(GroupBraces, "}");
    SplitString.RunsOfRun(GroupBraces, body);
  }

  /** The names of a parent followed by a child list: the parent, then the children. */
  lemma NameRuns(n: string, q: seq<string>)
    requires PlainName(n)
    requires forall i :: 0 <= i < |q| ==> PlainName(q[i])
    ensures SplitString.Runs(NameSeparators, n + ChildList(q)) == [n] + q
    ensures GroupText(n + ChildList(q))
  {
    ChildListRuns(q);
    assert SplitString.NoSeparatorIn(NameSeparators, n);
    SplitString.RunsOfRun(NameSeparators, n);
    if q == [] {
      assert n + ChildList(q) == n;
    } else {
      SplitString.RunsAppend(NameSeparators, n, ChildList(q));
    }
  }

  /** The group of n is one piece of group text, whose names are n and then its children in ascending order. */
  lemma GroupRuns(t: Tree, n: string)
    requires n in t.nodes && PlainName(n) && forall c :: c in t.nodes[n].children ==> PlainName(c)
    ensures var body := n + ChildList(Sorted(t.nodes[n].children));
      SplitString.Runs(GroupBraces, Group(t, n)) == [body] && '[' !in body
      && SplitString.Runs(NameSeparators, body) == [n] + Sorted(t.nodes[n].children)
  {
    var q := Sorted(t.nodes[n].children);
    SortedContents(t.nodes[n].children);
    forall i | 0 <= i < |q|
      ensures PlainName(q[i])
    {
      assert q[i] in t.nodes[n].children;
    }
    NameRuns(n, q);
    BracedRuns(n + ChildList(q));
    assert Group(t, n) == "{" + (n + ChildList(q)) + "}";
  }

  /**
   * A spec of one group that names a parent and children reads as creating
   * the children under it; a parent alone is refused.
   */
  lemma OneGroup(u: Tree, g: string)
    requires '[' !in g && SplitString.Runs(NameSeparators, g) != []
    ensures var names := SplitString.Runs(NameSeparators, g);
      BuildGroups(u, [g]) == if |names| == 1 then Err(InvalidRange) else AddChildren(u, names[0], names[1..])
  {
    assert [g][1..] == [];
  }

  /**
   * Reading the group of n adds n's children in ascending order; the group
   * of a childless node, "{n}", is refused.
   */
  lemma GroupBuild(u: Tree, t: Tree, n: string)
    requires Wellformed(t) && PlainNames(t) && n in t.nodes
    ensures t.nodes[n].children != {} ==>
      BuildSpec(u, Group(t, n)) == AddChildren(u, n, Sorted(t.nodes[n].children))
    ensures t.nodes[n].children == {} ==> BuildSpec(u, Group(t, n)) == Err(InvalidRange)
  {
    var q := Sorted(t.nodes[n].children);
    forall c | c in t.nodes[n].children
      ensures PlainName(c)
    {
      ChildFacts(t, n, c);
    }
    GroupRuns(t, n);
    SortedContents(t.nodes[n].children);
    var body := n + ChildList(q);
    OneGroup(u, body);
    assert ([n] + q)[1..] == q;
  }

  /** Reading a spec in two parts: the groups of the first, then those of the second. */
  lemma {:induction false} BuildGroupsAppend(u: Tree, g1: seq<string>, g2: seq<string>, v: Tree)
    requires BuildGroups(u, g1) == Ok(v)
    ensures BuildGroups(u, g1 + g2) == BuildGroups(v, g2)
    decreases |g1|
  {
    if g1 != [] {
      assert (g1 + g2)[0] == g1[0];
      assert (g1 + g2)[1..] == g1[1..] + g2;
      var names := SplitString.Runs(NameSeparators, g1[0]);
      if '[' in g1[0] || names == [] {
        BuildGroupsAppend(u, g1[1..], g2, v);
      } else {
        var r := AddChildren(u, names[0], names[1..]);
        BuildGroupsAppend(r.value, g1[1..], g2, v);
      }
    } else {
      assert g1 + g2 == g2;
    }
  }

  /** Once the groups before it are read, a one-name group stops the reading with the range's error. */
  lemma OneNameGroupRefused(u: Tree, g1: seq<string>, g: string, g2: seq<string>, v: Tree)
    requires BuildGroups(u, g1) == Ok(v) && OneNameGroup(g)
    ensures BuildGroups(u, g1 + [g] + g2) == Err(InvalidRange)
  {
    assert g1 + [g] + g2 == g1 + ([g] + g2);
    BuildGroupsAppend(u, g1, [g] + g2, v);
    assert ([g] + g2)[0] == g;
  }

  /** Where the first part ends with a brace or the second starts with one, reading the whole is reading both. */
  lemma BuildSpecAppend(u: Tree, x: string, y: string, v: Tree)
    requires |x| == 0 || x[|x| - 1] in GroupBraces || |y| == 0 || y[0] in GroupBraces
    requires BuildSpec(u, x) == Ok(v)
    ensures BuildSpec(u, x + y) == BuildSpec(v, y)
  {
    if |x| == 0 {
      SplitString.RunsOfSeparatorsOnly(GroupBraces, x);
      assert x + y == y;
    } else {
      SplitString.RunsAppend(GroupBraces, x, y);
      BuildGroupsAppend(u, SplitString.Runs(GroupBraces, x), SplitString.Runs(GroupBraces, y), v);
    }
  }

  /** Text that is empty or ends a group. */
  predicate EndsGroup(s: string)
  {
    |s| == 0 || s[|s| - 1] == '}'
  }

  /** The same after text that is empty or ends a group. */
  lemma BuildSpecAfterGroup(u: Tree, x: string, y: string, v: Tree)
    requires EndsGroup(x)
    requires BuildSpec(u, x) == Ok(v)
    ensures BuildSpec(u, x + y) == BuildSpec(v, y)
  {
    BuildSpecAppend(u, x, y, v);
  }

  /** Text without a group reads as nothing when it is only spaces or holds a '['. */
  lemma FillerBuild(u: Tree, s: string)
    requires forall c :: c in s ==> c !in GroupBraces
    requires '[' in s || forall c :: c in s ==> c == ' '
    ensures BuildSpec(u, s) == Ok(u)
  {
    if s == "" {
      SplitString.RunsOfSeparatorsOnly(GroupBraces, s);
    } else {
      assert SplitString.NoSeparatorIn(GroupBraces, s);
      SplitString.RunsOfRun(GroupBraces, s);
      if '[' !in s {
        forall k | 0 <= k < |s|
          ensures s[k] in NameSeparators
        {
          assert s[k] in s;
        }
        SplitString.RunsOfSeparatorsOnly(NameSeparators, s);
      }
      SkippedGroup(u, s);
    }
  }

  /** A group holding '[' or no name is skipped. */
  lemma SkippedGroup(u: Tree, g: string)
    requires '[' in g || SplitString.Runs(NameSeparators, g) == []
    ensures BuildGroups(u, [g]) == Ok(u)
  {
    assert [g][0] == g;
    assert [g][1..] == [];
  }

  /** The digits of a level are no braces. */
  lemma LevelDigits(level: nat)
    ensures forall c :: c in NumberText.IntToString(level) ==> '0' <= c <= '9'
  {
    var s := NumberText.IntToString(level);
    NumberText.NatToDigitsRoundTrip(level, 10);
    forall c | c in s
      ensures '0' <= c <= '9'
    {
      var i :| 0 <= i < |s| && s[i] == c;
      assert NumberText.DigitValue(s[i], 10) < 10;
    }
  }

  /** A level header reads as nothing. */
  lemma HeaderBuild(u: Tree, level: nat, annotated: bool)
    ensures BuildSpec(u, LevelHeader(level, annotated)) == Ok(u)
  {
    var h := LevelHeader(level, annotated);
    if annotated {
      LevelDigits(level);
      var space := if level != 0 then " " else "";
      assert h == space + "[" + NumberText.IntToString(level) + "] ";
      assert '[' in h by {
        assert h[|space|] == '[';
      }
    }
    FillerBuild(u, h);
  }

  /** With `first` set, the groups of a level are empty or start with a brace. */
  lemma {:induction false} GroupsStart(t: Tree, q: seq<string>)
    ensures Groups(t, q, true) == "" || Groups(t, q, true)[0] == '{'
    decreases |q|
  {
    if q != [] {
      GroupsStart(t, q[1..]);
    }
  }

  /** The groups are empty or end with a brace, and they are not empty when a node of q has children. */
  lemma {:induction false} GroupsEnd(t: Tree, q: seq<string>, first: bool)
    ensures Groups(t, q, first) == "" || Groups(t, q, first)[|Groups(t, q, first)| - 1] == '}'
    ensures (exists i :: 0 <= i < |q| && q[i] in t.nodes && t.nodes[q[i]].children != {}) ==> Groups(t, q, first) != ""
    decreases |q|
  {
    if q != [] {
      GroupsEnd(t, q[1..], first);
      GroupsEnd(t, q[1..], false);
      if (exists i :: 0 <= i < |q| && q[i] in t.nodes && t.nodes[q[i]].children != {}) {
        var i :| 0 <= i < |q| && q[i] in t.nodes && t.nodes[q[i]].children != {};
        if i > 0 {
          assert q[1..][i - 1] == q[i];
        }
      }
    }
  }

  /** Every level above the last has a node with children, so its text ends with a brace. */
  lemma LevelTextEnds(t: Tree, l: int, annotated: bool)
    requires Wellformed(t) && 0 <= l < GetMaxLevel(t)
    ensures var s := LevelText(t, l, annotated); |s| > 0 && s[|s| - 1] == '}'
  {
    var q := Sorted(t.levels[l]);
    assert l + 1 in t.levels;
    var m :| m in t.levels[l + 1];
    LevelZeroIsRoot(t, m);
    ParentNodeFacts(t, m);
    var p := ParentOf(t, m);
    SortedContents(t.levels[l]);
    assert p in q;
    var i :| 0 <= i < |q| && q[i] == p;
    GroupsEnd(t, q, true);
  }

  lemma CanonicalEnds(t: Tree, k: int, annotated: bool)
    requires Wellformed(t) && 0 < k <= GetMaxLevel(t)
    ensures var s := Canonical(t, k, annotated); |s| > 0 && s[|s| - 1] == '}'
  {
    LevelTextEnds(t, k - 1, annotated);
  }

  // The trees read so far

  /** S holds the root and the parent of each of its members. */
  ghost predicate Closed(t: Tree, S: set<string>)
  {
    S <= t.nodes.Keys && t.root in S
    && forall m {:trigger ParentOf(t, m)} :: m in S && m != t.root ==> ParentOf(t, m) in S
  }

  /**
   * u is the tree cut down to the names in S: the same root, the entries of
   * S with their children in S, and the non-empty parts of the buckets in S.
   */
  ghost predicate IsPartial(t: Tree, S: set<string>, u: Tree)
  {
    u.root == t.root && PartialNodes(t, S, u) && PartialLevels(t, S, u)
  }

  ghost predicate PartialNodes(t: Tree, S: set<string>, u: Tree)
  {
    u.nodes.Keys == S
    && forall m {:trigger u.nodes[m]} :: m in u.nodes ==>
      (m in t.nodes
       && u.nodes[m].level == t.nodes[m].level
       && u.nodes[m].children == t.nodes[m].children * S
       && u.nodes[m].parent == t.nodes[m].parent)
  }

  ghost predicate PartialLevels(t: Tree, S: set<string>, u: Tree)
  {
    (forall l :: l in u.levels <==> l in t.levels && t.levels[l] * S != {})
    && forall l {:trigger u.levels[l]} :: l in u.levels ==> l in t.levels && u.levels[l] == t.levels[l] * S
  }

  /** What creating c under its parent needs to know of c, for the cut S. */
  ghost predicate Attachable(t: Tree, S: set<string>, c: string)
  {
    c in t.nodes && c != NullNodeName && c !in S
    && ParentOf(t, c) in S && ParentOf(t, c) in t.nodes
    && c in t.nodes[ParentOf(t, c)].children
    && t.nodes[c].level == t.nodes[ParentOf(t, c)].level + 1
    && (forall x :: x in t.nodes[c].children ==> x !in S && x != c)
    && (forall m :: m in S && m in t.nodes && m != ParentOf(t, c) ==> c !in t.nodes[m].children)
    && t.nodes[c].level in t.levels && c in t.levels[t.nodes[c].level]
    && (forall l :: l in t.levels && c in t.levels[l] ==> l == t.nodes[c].level)
  }

  /** A node outside a closed cut whose parent is in it can be attached. */
  lemma AttachableHolds(t: Tree, S: set<string>, c: string)
    requires Wellformed(t) && Closed(t, S) && c in t.nodes && c !in S && ParentOf(t, c) in S
    ensures Attachable(t, S, c)
  {
    assert c != t.root;
    forall x | x in t.nodes[c].children
      ensures x !in S && x != c
    {
      assert ParentOf(t, x) == c && c != NullNodeName;
    }
  }

  /** Creating a node under its parent grows the cut by that node. */
  lemma PartialStep(t: Tree, S: set<string>, c: string, u: Tree) returns (u2: Tree)
    requires Attachable(t, S, c) && IsPartial(t, S, u)
    ensures StringTreeEdit.CreateChild(u, ParentOf(t, c), c) == Ok(u2)
    ensures IsPartial(t, S + {c}, u2)
  {
    var p := ParentOf(t, c);
    var r := StringTreeEdit.CreateChild(u, p, c);
    StringTreeEdit.CreateChildEffect(u, p, c);
    u2 := r.value;
    PartialStepNodes(t, S, c, u, u2);
    PartialStepLevels(t, S, c, u, u2);
  }

  lemma PartialStepNodes(t: Tree, S: set<string>, c: string, u: Tree, r: Tree)
    requires Attachable(t, S, c) && PartialNodes(t, S, u)
    requires StringTreeEdit.ChildAddedNodes(u, r, ParentOf(t, c), c)
    ensures PartialNodes(t, S + {c}, r)
  {
    var p := ParentOf(t, c);
    forall m | m in r.nodes
      ensures m in t.nodes
      ensures r.nodes[m].level == t.nodes[m].level
      ensures r.nodes[m].children == t.nodes[m].children * (S + {c})
      ensures r.nodes[m].parent == t.nodes[m].parent
    {
      if m != c && m != p {
        assert c !in t.nodes[m].children;
      }
    }
  }

  lemma PartialStepLevels(t: Tree, S: set<string>, c: string, u: Tree, r: Tree)
    requires Attachable(t, S, c) && PartialNodes(t, S, u) && PartialLevels(t, S, u)
    requires StringTreeEdit.ChildAddedLevels(u, r, ParentOf(t, c), c)
    ensures PartialLevels(t, S + {c}, r)
  {
    var level := t.nodes[c].level;
    assert level == u.nodes[ParentOf(t, c)].level + 1;
    forall l | l in t.levels
      ensures t.levels[l] * (S + {c}) == if l == level then t.levels[l] * S + {c} else t.levels[l] * S
    {
    }
  }

  /** The rest of a list of distinct new children is a list of distinct children new to the grown cut. */
  lemma RestOfChildren(S: set<string>, K: set<string>, q: seq<string>, U: set<string>)
    requires q != []
    requires forall i :: 0 <= i < |q| ==> q[i] in K && q[i] !in S
    requires forall i, j :: 0 <= i < j < |q| ==> q[i] != q[j]
    requires forall x :: x in U <==> x in q
    ensures forall i :: 0 <= i < |q[1..]| ==> q[1..][i] in K && q[1..][i] !in S + {q[0]}
    ensures forall i, j :: 0 <= i < j < |q[1..]| ==> q[1..][i] != q[1..][j]
    ensures forall x :: x in U - {q[0]} <==> x in q[1..]
    ensures S + {q[0]} + (U - {q[0]}) == S + U
  {
    var c := q[0];
    forall i | 0 <= i < |q[1..]|
      ensures q[1..][i] in K && q[1..][i] !in S + {c}
    {
      assert q[1..][i] == q[i + 1];
    }
    forall x
      ensures x in U - {c} <==> x in q[1..]
    {
      if x in q && x != c {
        var i :| 0 <= i < |q| && q[i] == x;
        assert q[1..][i - 1] == x;
      }
    }
  }

  /** Creating a group's children, none yet present, grows the cut by them. */
  lemma {:induction false} AddChildrenPartial(t: Tree, S: set<string>, n: string, q: seq<string>, U: set<string>, u: Tree)
    requires Wellformed(t) && Closed(t, S) && IsPartial(t, S, u) && n in S
    requires forall i :: 0 <= i < |q| ==> q[i] in t.nodes[n].children && q[i] !in S
    requires forall i, j :: 0 <= i < j < |q| ==> q[i] != q[j]
    requires forall x :: x in U <==> x in q
    ensures AddChildren(u, n, q).Ok? && IsPartial(t, S + U, AddChildren(u, n, q).value)
    decreases |q|
  {
    if q == [] {
      assert S + U == S;
    } else {
      var c := q[0];
      ChildFacts(t, n, c);
      AttachableHolds(t, S, c);
      var u2 := PartialStep(t, S, c, u);
      RestOfChildren(S, t.nodes[n].children, q, U);
      ClosedWithChild(t, S, c);
      AddChildrenPartial(t, S + {c}, n, q[1..], U - {c}, u2);
    }
  }

  lemma ClosedWithChild(t: Tree, S: set<string>, c: string)
    requires Closed(t, S) && c in t.nodes && ParentOf(t, c) in S
    ensures Closed(t, S + {c})
  {
  }

  /** The parents of U are the nodes of q: with q's first node taken out, U loses that node's children. */
  lemma ParentsAfterFirst(t: Tree, q: seq<string>, U: set<string>)
    requires Wellformed(t) && q != []
    requires q[0] in t.nodes
    requires forall i, j :: 0 <= i < j < |q| ==> q[i] != q[j]
    requires forall x :: x in U <==> x in t.nodes && x != t.root && ParentOf(t, x) in q
    ensures forall x :: x in U - t.nodes[q[0]].children <==> x in t.nodes && x != t.root && ParentOf(t, x) in q[1..]
  {
    var n, K, rest := q[0], t.nodes[q[0]].children, q[1..];
    forall x
      ensures x in U - K <==> x in t.nodes && x != t.root && ParentOf(t, x) in rest
    {
      if x in t.nodes && x != t.root {
        ParentNodeFacts(t, x);
        if ParentOf(t, x) == n {
          assert x in K;
        } else if ParentOf(t, x) in q {
          var i :| 0 <= i < |q| && q[i] == ParentOf(t, x);
          assert rest[i - 1] == q[i];
        }
        if ParentOf(t, x) in rest {
          var i :| 0 <= i < |rest| && rest[i] == ParentOf(t, x);
          assert q[i + 1] == rest[i];
          assert ParentOf(t, x) != n;
        }
      }
    }
  }

  /** The children of q's later nodes are not those of its first. */
  lemma LaterChildren(t: Tree, S: set<string>, q: seq<string>)
    requires Wellformed(t) && q != [] && q[0] in t.nodes
    requires forall i, j :: 0 <= i < j < |q| ==> q[i] != q[j]
    requires forall i :: 0 <= i < |q| ==> q[i] in t.nodes
    requires forall i, c :: 0 <= i < |q| && c in t.nodes[q[i]].children ==> c !in S
    ensures forall i, c :: 0 <= i < |q[1..]| && c in t.nodes[q[1..][i]].children ==> c !in S + t.nodes[q[0]].children
  {
    var rest := q[1..];
    forall i, c | 0 <= i < |rest| && c in t.nodes[rest[i]].children
      ensures c !in S + t.nodes[q[0]].children
    {
      assert rest[i] == q[i + 1];
      assert ParentOf(t, c) == rest[i];
    }
  }

  /** A group's children join the cut under a parent in it, keeping it closed. */
  lemma ClosedWithChildren(t: Tree, S: set<string>, n: string)
    requires Wellformed(t) && Closed(t, S) && n in S
    ensures Closed(t, S + t.nodes[n].children)
  {
    forall m | m in t.nodes[n].children
      ensures m in t.nodes && m != t.root && ParentOf(t, m) == n
    {
      ChildFacts(t, n, m);
    }
  }

  /** Reading one node's group, after a space unless it is the first, adds its children. */
  lemma GroupPartial(t: Tree, S: set<string>, n: string, first: bool, u: Tree) returns (v: Tree)
    requires Wellformed(t) && PlainNames(t) && Closed(t, S) && IsPartial(t, S, u) && n in S
    requires t.nodes[n].children != {} && forall c :: c in t.nodes[n].children ==> c !in S
    ensures BuildSpec(u, (if first then "" else " ") + Group(t, n)) == Ok(v)
    ensures IsPartial(t, S + t.nodes[n].children, v)
  {
    var K := t.nodes[n].children;
    var sorted := SortedChildren(t, n, S);
    AddChildrenPartial(t, S, n, sorted, K, u);
    v := AddChildren(u, n, sorted).value;
    GroupBuild(u, t, n);
    assert Group(t, n)[0] == '{';
    AfterSpace(u, Group(t, n), first, v);
  }

  /** A space before a group does not change what it reads as. */
  lemma AfterSpace(u: Tree, g: string, first: bool, v: Tree)
    requires |g| > 0 && g[0] == '{' && BuildSpec(u, g) == Ok(v)
    ensures BuildSpec(u, (if first then "" else " ") + g) == Ok(v)
  {
    var prefix := if first then "" else " ";
    FillerBuild(u, prefix);
    BuildSpecAppend(u, prefix, g, u);
  }

  /** The children of n in ascending order: distinct, and outside S when all of them are. */
  lemma SortedChildren(t: Tree, n: string, S: set<string>) returns (sorted: seq<string>)
    requires n in t.nodes
    requires forall c :: c in t.nodes[n].children ==> c !in S
    ensures sorted == Sorted(t.nodes[n].children)
    ensures forall i :: 0 <= i < |sorted| ==> sorted[i] in t.nodes[n].children && sorted[i] !in S
    ensures forall i, j :: 0 <= i < j < |sorted| ==> sorted[i] != sorted[j]
    ensures forall x :: x in t.nodes[n].children <==> x in sorted
  {
    var K := t.nodes[n].children;
    sorted := Sorted(K);
    SortedContents(K);
    forall i | 0 <= i < |sorted|
      ensures sorted[i] in K
    {
      assert sorted[i] in sorted;
    }
  }

  /**
   * The conditions for reading the groups of the nodes q into the cut S:
   * q lists distinct nodes of S, none of whose children is in S yet, and U
   * is the set of all their children.
   */
  ghost predicate GroupsReady(t: Tree, S: set<string>, q: seq<string>, U: set<string>)
  {
    Closed(t, S)
    && (forall i, j :: 0 <= i < j < |q| ==> q[i] != q[j])
    && (forall i :: 0 <= i < |q| ==> q[i] in S)
    && (forall i, c :: 0 <= i < |q| && c in t.nodes[q[i]].children ==> c !in S)
    && (forall x :: x in U <==> x in t.nodes && x != t.root && ParentOf(t, x) in q)
  }

  /** After the first node of q, the rest of q is ready for the cut grown by its children. */
  lemma GroupsRest(t: Tree, S: set<string>, q: seq<string>, U: set<string>)
    requires Wellformed(t) && q != [] && GroupsReady(t, S, q, U)
    ensures var K := t.nodes[q[0]].children;
      GroupsReady(t, S + K, q[1..], U - K) && S + K + (U - K) == S + U
  {
    var K := t.nodes[q[0]].children;
    RestInCut(S, q, K);
    ParentsAfterFirst(t, q, U);
    LaterChildren(t, S, q);
    ClosedWithChildren(t, S, q[0]);
    FirstChildrenReady(t, q, U);
    JoinCut(S, K, U);
  }

  /** The rest of a list of distinct names of a cut is distinct and in any larger cut. */
  lemma RestInCut(S: set<string>, q: seq<string>, K: set<string>)
    requires q != []
    requires forall i, j :: 0 <= i < j < |q| ==> q[i] != q[j]
    requires forall i :: 0 <= i < |q| ==> q[i] in S
    ensures forall i, j :: 0 <= i < j < |q[1..]| ==> q[1..][i] != q[1..][j]
    ensures forall i :: 0 <= i < |q[1..]| ==> q[1..][i] in S + K
  {
    var rest := q[1..];
    forall i | 0 <= i < |rest|
      ensures rest[i] == q[i + 1]
    {
    }
  }

  /** The children of the first node of q are among the children of q. */
  lemma FirstChildrenReady(t: Tree, q: seq<string>, U: set<string>)
    requires Wellformed(t) && q != [] && q[0] in t.nodes
    requires forall x :: x in U <==> x in t.nodes && x != t.root && ParentOf(t, x) in q
    ensures t.nodes[q[0]].children <= U
  {
    forall c | c in t.nodes[q[0]].children
      ensures c in U
    {
      ChildFacts(t, q[0], c);
    }
  }

  lemma JoinCut(S: set<string>, K: set<string>, U: set<string>)
    requires K <= U
    ensures S + K + (U - K) == S + U
  {
  }

  /** Reading the groups of the nodes q, all in the cut and none of whose children is, adds those children. */
  lemma GroupsPartial(t: Tree, S: set<string>, q: seq<string>, first: bool, U: set<string>, u: Tree)
    returns (v: Tree)
    requires Wellformed(t) && PlainNames(t) && IsPartial(t, S, u) && GroupsReady(t, S, q, U)
    ensures BuildSpec(u, Groups(t, q, first)) == Ok(v) && IsPartial(t, S + U, v)
    decreases |q|, 1
  {
    if q == [] {
      SplitString.RunsOfSeparatorsOnly(GroupBraces, "");
      assert S + U == S;
      v := u;
    } else if t.nodes[q[0]].children == {} {
      v := GroupsSkip(t, S, q, first, U, u);
    } else {
      v := GroupsCons(t, S, q, first, U, u);
    }
  }

  /** A node without children writes no group. */
  lemma GroupsSkip(t: Tree, S: set<string>, q: seq<string>, first: bool, U: set<string>, u: Tree)
    returns (v: Tree)
    requires Wellformed(t) && PlainNames(t) && IsPartial(t, S, u) && GroupsReady(t, S, q, U)
    requires q != [] && t.nodes[q[0]].children == {}
    ensures BuildSpec(u, Groups(t, q, first)) == Ok(v) && IsPartial(t, S + U, v)
    decreases |q|, 0
  {
    GroupsRest(t, S, q, U);
    assert S + {} == S && U - {} == U;
    v := GroupsPartial(t, S, q[1..], first, U, u);
  }

  /** A node with children writes its group, then come the groups of the rest. */
  lemma GroupsCons(t: Tree, S: set<string>, q: seq<string>, first: bool, U: set<string>, u: Tree)
    returns (v: Tree)
    requires Wellformed(t) && PlainNames(t) && IsPartial(t, S, u) && GroupsReady(t, S, q, U)
    requires q != [] && t.nodes[q[0]].children != {}
    ensures BuildSpec(u, Groups(t, q, first)) == Ok(v) && IsPartial(t, S + U, v)
    decreases |q|, 0
  {
    var n, rest := q[0], q[1..];
    var K := t.nodes[n].children;
    GroupsRest(t, S, q, U);
    var g := (if first then "" else " ") + Group(t, n);
    var w := GroupPartial(t, S, n, first, u);
    v := GroupsPartial(t, S + K, rest, false, U - K, w);
    GroupEnds(t, n, first);
    BuildSpecAfterGroup(u, g, Groups(t, rest, false), w);
  }

  /** A group, with or without the space before it, ends with its closing brace. */
  lemma GroupEnds(t: Tree, n: string, first: bool)
    requires n in t.nodes
    ensures EndsGroup((if first then "" else " ") + Group(t, n))
  {
  }

  /** The names at levels below k. */
  ghost function Upto(t: Tree, k: int): set<string>
  {
    set m | m in t.nodes && t.nodes[m].level < k
  }

  lemma UptoClosed(t: Tree, k: int)
    requires Wellformed(t) && 0 < k
    ensures Closed(t, Upto(t, k))
  {
    LevelZeroIsRoot(t, t.root);
    forall m | m in Upto(t, k) && m != t.root
      ensures ParentOf(t, m) in Upto(t, k)
    {
      ParentNodeFacts(t, m);
    }
  }

  /** The nodes of level l, the children of nothing below level l + 1, their children level l + 1. */
  lemma LevelNodes(t: Tree, l: int, q: seq<string>)
    requires Wellformed(t) && 0 <= l < GetMaxLevel(t) && q == Sorted(t.levels[l])
    ensures forall i, j :: 0 <= i < j < |q| ==> q[i] != q[j]
    ensures forall i :: 0 <= i < |q| ==> q[i] in t.nodes && q[i] in Upto(t, l + 1)
    ensures forall i, c :: 0 <= i < |q| && c in t.nodes[q[i]].children ==> c !in Upto(t, l + 1)
    ensures forall x :: x in t.levels[l + 1] <==> x in t.nodes && x != t.root && ParentOf(t, x) in q
    ensures Upto(t, l + 1) + t.levels[l + 1] == Upto(t, l + 2)
  {
    SortedContents(t.levels[l]);
    LevelMembers(t, l, q);
    LevelChildren(t, l, q);
  }

  /** The nodes of level l, in order and each once, all below level l + 1, none of their children. */
  lemma LevelMembers(t: Tree, l: int, q: seq<string>)
    requires Wellformed(t) && 0 <= l < GetMaxLevel(t)
    requires forall x :: x in q <==> x in t.levels[l]
    ensures forall i :: 0 <= i < |q| ==> q[i] in t.nodes && q[i] in Upto(t, l + 1)
    ensures forall i, c :: 0 <= i < |q| && c in t.nodes[q[i]].children ==> c !in Upto(t, l + 1)
  {
    forall i | 0 <= i < |q|
      ensures q[i] in t.nodes && t.nodes[q[i]].level == l
    {
      assert q[i] in t.levels[l];
    }
    forall i, c | 0 <= i < |q| && c in t.nodes[q[i]].children
      ensures c !in Upto(t, l + 1)
    {
      ChildFacts(t, q[i], c);
    }
  }

  /** Level l + 1 is the children of the nodes of level l, and joins the names below it. */
  lemma LevelChildren(t: Tree, l: int, q: seq<string>)
    requires Wellformed(t) && 0 <= l < GetMaxLevel(t)
    requires forall x :: x in q <==> x in t.levels[l]
    ensures forall x :: x in t.levels[l + 1] <==> x in t.nodes && x != t.root && ParentOf(t, x) in q
    ensures Upto(t, l + 1) + t.levels[l + 1] == Upto(t, l + 2)
  {
    forall x
      ensures x in t.levels[l + 1] <==> x in t.nodes && x != t.root && ParentOf(t, x) in q
    {
      LevelChild(t, l, q, x);
    }
  }

  /** One name is at level l + 1 exactly when it is a child of a node at level l. */
  lemma LevelChild(t: Tree, l: int, q: seq<string>, x: string)
    requires Wellformed(t) && 0 <= l < GetMaxLevel(t)
    requires forall y :: y in q <==> y in t.levels[l]
    ensures x in t.levels[l + 1] <==> x in t.nodes && x != t.root && ParentOf(t, x) in q
  {
    if x in t.nodes && x != t.root {
      ParentNodeFacts(t, x);
      LevelBounds(t, ParentOf(t, x));
    }
    if x in t.levels[l + 1] {
      LevelZeroIsRoot(t, x);
    }
  }

  /** Reading the text of level l adds level l + 1. */
  lemma LevelPartial(t: Tree, l: int, annotated: bool, u: Tree) returns (v: Tree)
    requires Wellformed(t) && PlainNames(t) && 0 <= l < GetMaxLevel(t) && IsPartial(t, Upto(t, l + 1), u)
    ensures BuildSpec(u, LevelText(t, l, annotated)) == Ok(v) && IsPartial(t, Upto(t, l + 2), v)
  {
    var q := Sorted(t.levels[l]);
    LevelNodes(t, l, q);
    UptoClosed(t, l + 1);
    v := GroupsPartial(t, Upto(t, l + 1), q, true, t.levels[l + 1], u);
    HeaderBuild(u, l, annotated);
    GroupsStart(t, q);
    BuildSpecAppend(u, LevelHeader(l, annotated), Groups(t, q, true), u);
  }

  /** Reading the text of the levels below k builds the tree down to level k. */
  lemma {:induction false} CanonicalPartial(t: Tree, k: int, annotated: bool, u: Tree) returns (v: Tree)
    requires Wellformed(t) && PlainNames(t) && 0 <= k <= GetMaxLevel(t) && IsPartial(t, Upto(t, 1), u)
    ensures BuildSpec(u, Canonical(t, k, annotated)) == Ok(v) && IsPartial(t, Upto(t, k + 1), v)
    decreases k, 1
  {
    if k == 0 {
      EmptyBuild(t, annotated, u);
      v := u;
    } else {
      v := CanonicalNext(t, k, annotated, u);
    }
  }

  /** The text of levels 0 to k - 1, for k > 0: that of levels 0 to k - 2, then level k - 1. */
  lemma {:induction false} CanonicalNext(t: Tree, k: int, annotated: bool, u: Tree) returns (v: Tree)
    requires Wellformed(t) && PlainNames(t) && 0 < k <= GetMaxLevel(t) && IsPartial(t, Upto(t, 1), u)
    ensures BuildSpec(u, Canonical(t, k, annotated)) == Ok(v) && IsPartial(t, Upto(t, k + 1), v)
    decreases k, 0
  {
    var w := CanonicalPartial(t, k - 1, annotated, u);
    v := LevelPartial(t, k - 1, annotated, w);
    CanonicalRead(t, k, annotated, u, w, v);
  }

  /** The text of no level is empty and reads as nothing. */
  lemma EmptyBuild(t: Tree, annotated: bool, u: Tree)
    requires LevelsOk(t) && 0 < |t.levels|
    ensures BuildSpec(u, Canonical(t, 0, annotated)) == Ok(u)
  {
    SplitString.RunsOfSeparatorsOnly(GroupBraces, "");
  }

  /** The text of levels 0 to k - 1 reads as that of levels 0 to k - 2, then level k - 1. */
  lemma CanonicalRead(t: Tree, k: int, annotated: bool, u: Tree, w: Tree, v: Tree)
    requires Wellformed(t) && 0 < k <= GetMaxLevel(t)
    requires BuildSpec(u, Canonical(t, k - 1, annotated)) == Ok(w)
    requires BuildSpec(w, LevelText(t, k - 1, annotated)) == Ok(v)
    ensures BuildSpec(u, Canonical(t, k, annotated)) == Ok(v)
  {
    CanonicalJoin(t, k - 1, annotated);
    BuildSpecAfterGroup(u, Canonical(t, k - 1, annotated), LevelText(t, k - 1, annotated), w);
  }

  /** The text of the levels below k is empty or ends a group. */
  lemma CanonicalJoin(t: Tree, k: int, annotated: bool)
    requires Wellformed(t) && 0 <= k <= GetMaxLevel(t)
    ensures EndsGroup(Canonical(t, k, annotated))
  {
    if k > 0 {
      CanonicalEnds(t, k, annotated);
    }
  }

  /** Level 0 holds the root alone. */
  lemma UptoOne(t: Tree)
    requires Wellformed(t)
    ensures Upto(t, 1) == {t.root}
  {
    forall m
      ensures m in Upto(t, 1) <==> m == t.root
    {
      if m in t.nodes {
        LevelBounds(t, m);
        LevelZeroIsRoot(t, m);
      }
    }
  }

  /** The cut to the root is the tree the constructor starts from. */
  lemma PartialRoot(t: Tree)
    requires Wellformed(t)
    ensures IsPartial(t, Upto(t, 1), Singleton(t.root))
  {
    UptoOne(t);
    assert t.root !in t.nodes[t.root].children by {
      LevelBounds(t, t.root);
      forall c | c in t.nodes[t.root].children
        ensures c != t.root
      {
        ChildFacts(t, t.root, c);
      }
    }
    LevelZeroIsRoot(t, t.root);
    assert t.root in t.levels[0];
    forall l | l in t.levels
      ensures t.levels[l] * {t.root} == if l == 0 then {t.root} else {}
    {
      if t.root in t.levels[l] {
        assert t.nodes[t.root].level == l;
      }
    }
  }

  /** A cut to every level is the tree itself. */
  lemma PartialAll(t: Tree, v: Tree)
    requires Wellformed(t) && IsPartial(t, Upto(t, GetMaxLevel(t) + 1), v)
    ensures v == t
  {
    var S := Upto(t, GetMaxLevel(t) + 1);
    forall m | m in t.nodes
      ensures m in S
    {
      LevelBounds(t, m);
    }
    PartialAllNodes(t, S, v);
    PartialAllLevels(t, S, v);
  }

  lemma PartialAllNodes(t: Tree, S: set<string>, v: Tree)
    requires ChildrenOk(t) && S == t.nodes.Keys && PartialNodes(t, S, v)
    ensures v.nodes == t.nodes
  {
    forall m | m in t.nodes
      ensures v.nodes[m] == t.nodes[m]
    {
      assert t.nodes[m].children * S == t.nodes[m].children;
    }
  }

  lemma PartialAllLevels(t: Tree, S: set<string>, v: Tree)
    requires LevelIndexOk(t) && LevelsOk(t) && S == t.nodes.Keys && PartialLevels(t, S, v)
    ensures v.levels == t.levels
  {
    forall l | l in t.levels
      ensures t.levels[l] * S == t.levels[l] != {}
    {
    }
    forall l
      ensures l in v.levels <==> l in t.levels
    {
    }
    forall l | l in v.levels
      ensures v.levels[l] == t.levels[l]
    {
    }
  }

  // The round trips

  /**
   * Reading back the canonical text of every level above the last, with or
   * without level annotations, rebuilds the tree.
   */
  lemma CanonicalRoundTrip(t: Tree, annotated: bool)
    requires Wellformed(t) && PlainNames(t)
    ensures FromSpec(t.root, Canonical(t, GetMaxLevel(t), annotated)) == Ok(t)
  {
    LevelBounds(t, t.root);
    SingletonWellformed(t.root);
    PartialRoot(t);
    var v := CanonicalPartial(t, GetMaxLevel(t), annotated, Singleton(t.root));
    PartialAll(t, v);
  }

  /** `StringTree(tree.GetRoot(), ToString(tree, levelAnnotated))` is the tree. */
  lemma ToStringRoundTrip(t: Tree, annotated: bool)
    requires Wellformed(t) && PlainNames(t) && ToString(t, annotated).Ok?
    ensures FromSpec(t.root, ToString(t, annotated).value) == Ok(t)
  {
    CanonicalRoundTrip(t, annotated);
  }

  /** The same holds for every tree, the root alone included, once the empty level range is allowed. */
  lemma ToStringAllowEmptyRoundTrip(t: Tree, annotated: bool)
    requires Wellformed(t) && PlainNames(t)
    ensures FromSpec(t.root, ToStringAllowEmpty(t, annotated)) == Ok(t)
  {
    LevelBounds(t, t.root);
    CanonicalRoundTrip(t, annotated);
  }

  /** As written, the tree of a root alone, which the empty spec builds, has no text. */
  lemma RootOnlyHasNoText(root: string, annotated: bool)
    requires root != NullNodeName
    ensures var t := Singleton(root);
      Wellformed(t) && FromSpec(root, "") == Ok(t) && ToString(t, annotated) == Err(InvalidRange)
  {
    SingletonWellformed(root);
    SplitString.RunsOfSeparatorsOnly(GroupBraces, "");
    assert Singleton(root).nodes.Keys == {root};
  }

  /** The text is canonical: two trees with the same root and the same text are the same tree. */
  lemma ToStringInjective(t: Tree, t2: Tree, annotated: bool)
    requires Wellformed(t) && PlainNames(t) && Wellformed(t2) && PlainNames(t2) && t.root == t2.root
    requires ToStringAllowEmpty(t, annotated) == ToStringAllowEmpty(t2, annotated)
    ensures t == t2
  {
    ToStringAllowEmptyRoundTrip(t, annotated);
    ToStringAllowEmptyRoundTrip(t2, annotated);
  }

  /** Level annotations do not change what the text reads back as. */
  lemma AnnotationIgnored(t: Tree)
    requires Wellformed(t) && PlainNames(t)
    ensures FromSpec(t.root, ToStringAllowEmpty(t, true)) == FromSpec(t.root, ToStringAllowEmpty(t, false))
  {
    ToStringAllowEmptyRoundTrip(t, true);
    ToStringAllowEmptyRoundTrip(t, false);
  }
}
