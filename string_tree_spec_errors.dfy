/**
 * Tree specs that the spec constructor `StringTree(rootName, treeSpec)`
 * refuses: a group of one name visits its children over the range {1, 1},
 * which may not be empty.
 */
module StringTreeSpecErrors {
  import opened Wrappers
  import opened StringTreeState
  import opened StringTreeText
  import StringTreeRoundTrip
  import StringTreeEdit
  import SplitString

  /**
   * A group of one plain name, "{x}", is refused: its child range {1, 1}
   * may not be empty, whatever the root and x are.
   */
  lemma OneNameSpec(root: string, x: string)
    requires root != NullNodeName && StringTreeRoundTrip.PlainName(x)
    ensures FromSpec(root, "{" + x + "}") == Err(InvalidRange)
  {
    StringTreeRoundTrip.NameRuns(x, []);
    assert x + ChildList([]) == x;
    StringTreeRoundTrip.BracedRuns(x);
    assert [x][0] == x;
  }

  /** `StringTree{"r", "{x}"}` throws. */
  lemma OneNameSpecExample()
    ensures FromSpec("r", "{x}") == Err(InvalidRange)
  {
    OneNameSpec("r", "x");
    assert "{" + "x" + "}" == "{x}";
  }

  /**
   * "{root, a} {a, }": the first group creates a, and the second, a
   * alone before a trailing comma, is refused.
   */
  lemma TrailingCommaSpec(root: string, a: string)
    requires StringTreeRoundTrip.PlainName(root) && StringTreeRoundTrip.PlainName(a) && root != a
    ensures FromSpec(root, "{" + root + ", " + a + "}" + " {" + a + ", }") == Err(InvalidRange)
  {
    var t := Singleton(root);
    var first, rest := "{" + root + ", " + a + "}", " {" + a + ", }";
    var v := FirstGroupRead(root, a);
    StringTreeRoundTrip.BuildSpecAppend(t, first, rest, v);
    TrailingCommaGroupRefused(v, a);
    assert "{" + root + ", " + a + "}" + " {" + a + ", }" == first + rest;
  }

  /** Reading "{root, a}" into the root alone creates a. */
  lemma FirstGroupRead(root: string, a: string) returns (v: Tree)
    requires StringTreeRoundTrip.PlainName(root) && StringTreeRoundTrip.PlainName(a) && root != a
    ensures BuildSpec(Singleton(root), "{" + root + ", " + a + "}") == Ok(v)
  {
    var t := Singleton(root);
    var body := root + ChildList([a]);
    assert ChildList([a]) == ", " + a by {
      assert [a][1..] == [];
    }
    assert "{" + root + ", " + a + "}" == "{" + body + "}";
    StringTreeRoundTrip.NameRuns(root, [a]);
    StringTreeRoundTrip.BracedRuns(body);
    StringTreeRoundTrip.OneGroup(t, body);
    assert ([root] + [a])[1..] == [a];
    assert StringTreeEdit.CreateChild(t, root, a).Ok?;
    assert [a][1..] == [];
    v := AddChildren(t, root, [a]).value;
  }

  /** " {a, }" names a alone, whichever tree it is read into. */
  lemma TrailingCommaGroupRefused(v: Tree, a: string)
    requires StringTreeRoundTrip.PlainName(a)
    ensures BuildSpec(v, " {" + a + ", }") == Err(InvalidRange)
  {
    var last := a + ", ";
    assert " {" + a + ", }" == " " + ("{" + last + "}");
    assert SplitString.Runs(GroupBraces, " " + ("{" + last + "}")) == [" ", last] by {
      SplitString.RunsOfRun(GroupBraces, " ");
      assert StringTreeRoundTrip.GroupText(last);
      StringTreeRoundTrip.BracedRuns(last);
      SplitString.RunsAppend(GroupBraces, " ", "{" + last + "}");
    }
    SplitString.RunsOfSeparatorsOnly(NameSeparators, " ");
    assert OneNameGroup(last) by {
      assert SplitString.NoSeparatorIn(NameSeparators, a);
      SplitString.RunsOfRun(NameSeparators, a);
      SplitString.RunsOfSeparatorsOnly(NameSeparators, ", ");
      SplitString.RunsAppend(NameSeparators, a, ", ");
    }
    assert '[' !in " ";
    assert BuildGroups(v, [" ", last]) == BuildGroups(v, [" ", last][1..]);
    assert [" ", last][1..] == [last];
    assert [last][0] == last;
  }

  /** `StringTree{"r", "{r, a} {a, }"}` throws. */
  lemma TrailingCommaSpecExample()
    ensures FromSpec("r", "{r, a} {a, }") == Err(InvalidRange)
  {
    TrailingCommaSpec("r", "a");
    TrailingCommaText();
  }

  lemma TrailingCommaText()
    ensures "{" + "r" + ", " + "a" + "}" + " {" + "a" + ", }" == "{r, a} {a, }"
  {
  }
}
