/**
 * `ies::SplitString` and `ies::SplitStringPreserve`: tokenisers over a set
 * of separator characters, dropping or keeping empty tokens. Positions are
 * indices into the input; `std::string::npos` is modelled as the input length.
 */
module SplitString {
  /** `find_first_of(separators, pos)`: the first separator at or after pos, or |s|. */
  function FindFirstOf(separators: set<char>, s: string, pos: nat): (i: nat)
    ensures i <= |s|
    ensures i < |s| ==> pos <= i && s[i] in separators
    ensures pos <= |s| ==> pos <= i
    decreases |s| - pos
  {
    if pos >= |s| then |s|
    else if s[pos] in separators then pos
    else FindFirstOf(separators, s, pos + 1)
  }

  /** Nothing between pos and the position found is a separator. */
  lemma {:induction false} FindFirstOfSkips(separators: set<char>, s: string, pos: nat)
    ensures forall k :: pos <= k < FindFirstOf(separators, s, pos) ==> s[k] !in separators
    decreases |s| - pos
  {
    if pos < |s| && s[pos] !in separators {
      FindFirstOfSkips(separators, s, pos + 1);
    }
  }

  /** `find_first_not_of(separators, pos)`: the first non-separator at or after pos, or |s|. */
  function FindFirstNotOf(separators: set<char>, s: string, pos: nat): (i: nat)
    ensures i <= |s|
    ensures i < |s| ==> pos <= i && s[i] !in separators
    ensures pos <= |s| ==> pos <= i
    decreases |s| - pos
  {
    if pos >= |s| then |s|
    else if s[pos] !in separators then pos
    else FindFirstNotOf(separators, s, pos + 1)
  }

  /** Everything between pos and the position found is a separator. */
  lemma {:induction false} FindFirstNotOfSkips(separators: set<char>, s: string, pos: nat)
    ensures forall k :: pos <= k < FindFirstNotOf(separators, s, pos) ==> s[k] in separators
    decreases |s| - pos
  {
    if pos < |s| && s[pos] in separators {
      FindFirstNotOfSkips(separators, s, pos + 1);
    }
  }

  /**
   * The reference tokenisation of s from position pos on: the maximal runs
   * of non-separator characters, left to right.
   */
  function RunsFrom(separators: set<char>, s: string, pos: nat): seq<string>
    requires pos <= |s|
    decreases |s| - pos
  {
    if pos == |s| then []
    else if s[pos] in separators then RunsFrom(separators, s, pos + 1)
    else
      var end := FindFirstOf(separators, s, pos + 1);
      [s[pos..end]] + RunsFrom(separators, s, end)
  }

  function Runs(separators: set<char>, s: string): seq<string>
  {
    RunsFrom(separators, s, 0)
  }

  /** Separators between a and b do not contribute tokens. */
  lemma {:induction false} RunsSkipSeparators(separators: set<char>, s: string, a: nat, b: nat)
    requires a <= b <= |s|
    requires forall k :: a <= k < b ==> s[k] in separators
    ensures RunsFrom(separators, s, a) == RunsFrom(separators, s, b)
    decreases b - a
  {
    if a < b {
      RunsSkipSeparators(separators, s, a + 1, b);
    }
  }

  /** The tokeniser of the source: its result is the maximal runs. */
  method SplitString(separators: set<char>, input: string) returns (tokens: seq<string>)
    ensures tokens == Runs(separators, input)
  {
    tokens := [];
    var start := FindFirstNotOf(separators, input, 0);
    FindFirstNotOfSkips(separators, input, 0);
    RunsSkipSeparators(separators, input, 0, start);
    while start != |input|
      invariant start <= |input|
      invariant start < |input| ==> input[start] !in separators
      invariant tokens + RunsFrom(separators, input, start) == Runs(separators, input)
      decreases |input| - start
    {
      var end := FindFirstOf(separators, input, start + 1);
      tokens := tokens + [input[start..end]];
      var next := FindFirstNotOf(separators, input, end);
      FindFirstNotOfSkips(separators, input, end);
      RunsSkipSeparators(separators, input, end, next);
      start := next;
    }
  }

  /** The characters of s from pos on that are not separators, in order. */
  function WithoutSeparatorsFrom(separators: set<char>, s: string, pos: nat): string
    requires pos <= |s|
    decreases |s| - pos
  {
    if pos == |s| then []
    else (if s[pos] in separators then [] else [s[pos]]) + WithoutSeparatorsFrom(separators, s, pos + 1)
  }

  function WithoutSeparators(separators: set<char>, s: string): string
  {
    WithoutSeparatorsFrom(separators, s, 0)
  }

  function Concat(tokens: seq<string>): string
  {
    if tokens == [] then [] else tokens[0] + Concat(tokens[1..])
  }

  predicate NoSeparatorIn(separators: set<char>, t: string)
  {
    forall c :: c in t ==> c !in separators
  }

  /** A stretch without separators is kept whole. */
  lemma {:induction false} WithoutSeparatorsOfRun(separators: set<char>, s: string, pos: nat, end: nat)
    requires pos <= end <= |s|
    requires forall k :: pos <= k < end ==> s[k] !in separators
    ensures WithoutSeparatorsFrom(separators, s, pos) == s[pos..end] + WithoutSeparatorsFrom(separators, s, end)
    decreases end - pos
  {
    if pos < end {
      calc {
        WithoutSeparatorsFrom(separators, s, pos);
        [s[pos]] + WithoutSeparatorsFrom(separators, s, pos + 1);
        { WithoutSeparatorsOfRun(separators, s, pos + 1, end); }
        [s[pos]] + (s[pos + 1..end] + WithoutSeparatorsFrom(separators, s, end));
        ([s[pos]] + s[pos + 1..end]) + WithoutSeparatorsFrom(separators, s, end);
        { assert [s[pos]] + s[pos + 1..end] == s[pos..end]; }
        s[pos..end] + WithoutSeparatorsFrom(separators, s, end);
      }
    }
  }

  /** The characters from a up to the next separator form a separator-free run. */
  lemma RunHasNoSeparator(separators: set<char>, s: string, a: nat)
    requires a <= |s|
    ensures NoSeparatorIn(separators, s[a..FindFirstOf(separators, s, a)])
  {
    var run := s[a..FindFirstOf(separators, s, a)];
    FindFirstOfSkips(separators, s, a);
    forall c | c in run ensures c !in separators {
      var k :| 0 <= k < |run| && run[k] == c;
      assert run[k] == s[a + k];
    }
  }

  /** No token is empty or holds a separator. */
  lemma {:induction false} RunsFromAreRuns(separators: set<char>, s: string, pos: nat)
    requires pos <= |s|
    ensures forall t :: t in RunsFrom(separators, s, pos) ==> |t| > 0 && NoSeparatorIn(separators, t)
    decreases |s| - pos
  {
    if pos == |s| {
    } else if s[pos] in separators {
      RunsFromAreRuns(separators, s, pos + 1);
    } else {
      var end := FindFirstOf(separators, s, pos + 1);
      RunsFromAreRuns(separators, s, end);
      RunHasNoSeparator(separators, s, pos + 1);
      assert s[pos..end] == [s[pos]] + s[pos + 1..end];
    }
  }

  /** Together the tokens are the input with its separators removed. */
  lemma {:induction false} RunsFromConcat(separators: set<char>, s: string, pos: nat)
    requires pos <= |s|
    ensures Concat(RunsFrom(separators, s, pos)) == WithoutSeparatorsFrom(separators, s, pos)
    decreases |s| - pos
  {
    if pos == |s| {
    } else if s[pos] in separators {
      RunsFromConcat(separators, s, pos + 1);
    } else {
      var end := FindFirstOf(separators, s, pos + 1);
      var tokens := RunsFrom(separators, s, pos);
      assert tokens[1..] == RunsFrom(separators, s, end);
      RunsFromConcat(separators, s, end);
      FindFirstOfSkips(separators, s, pos + 1);
      WithoutSeparatorsOfRun(separators, s, pos, end);
    }
  }

  lemma RunsProperties(separators: set<char>, s: string)
    ensures forall t :: t in Runs(separators, s) ==> |t| > 0 && NoSeparatorIn(separators, t)
    ensures Concat(Runs(separators, s)) == WithoutSeparators(separators, s)
  {
    RunsFromAreRuns(separators, s, 0);
    RunsFromConcat(separators, s, 0);
  }

  lemma {:induction false} FindFirstOfShift(separators: set<char>, x: string, r: string, k: nat)
    requires k <= |r|
    ensures FindFirstOf(separators, x + r, |x| + k) == |x| + FindFirstOf(separators, r, k)
    decreases |r| - k
  {
    if k < |r| && r[k] !in separators {
      assert (x + r)[|x| + k] == r[k];
      FindFirstOfShift(separators, x, r, k + 1);
    }
  }

  /** One unfolding of `RunsFrom` at a character that starts a run. */
  lemma RunsFromRun(separators: set<char>, s: string, pos: nat, end: nat)
    requires pos < |s| && s[pos] !in separators && end == FindFirstOf(separators, s, pos + 1)
    ensures RunsFrom(separators, s, pos) == [s[pos..end]] + RunsFrom(separators, s, end)
  {
  }

  /** The runs of x + r from inside r are the runs of r. */
  lemma {:induction false} RunsFromShift(separators: set<char>, x: string, r: string, k: nat)
    requires k <= |r|
    ensures RunsFrom(separators, x + r, |x| + k) == RunsFrom(separators, r, k)
    decreases |r| - k
  {
    var t, j := x + r, |x| + k;
    if k < |r| {
      assert t[j] == r[k];
      if r[k] in separators {
        RunsFromShift(separators, x, r, k + 1);
      } else {
        var end := FindFirstOf(separators, r, k + 1);
        FindFirstOfShift(separators, x, r, k + 1);
        RunsFromRun(separators, r, k, end);
        RunsFromRun(separators, t, j, |x| + end);
        assert t[j..|x| + end] == r[k..end];
        RunsFromShift(separators, x, r, end);
      }
    }
  }

  /** A separator-free piece followed by a separator, or by nothing, is one run. */
  lemma {:induction false} FindFirstOfPiece(separators: set<char>, p: string, r: string, k: nat)
    requires k <= |p| && NoSeparatorIn(separators, p)
    requires |r| > 0 ==> r[0] in separators
    ensures FindFirstOf(separators, p + r, k) == |p|
    decreases |p| - k
  {
    if k < |p| {
      assert (p + r)[k] == p[k];
      assert p[k] in p;
      FindFirstOfPiece(separators, p, r, k + 1);
    } else if |r| > 0 {
      assert (p + r)[k] == r[0];
    }
  }

  lemma FirstRun(separators: set<char>, p: string, r: string)
    requires |p| > 0 && NoSeparatorIn(separators, p)
    requires |r| > 0 ==> r[0] in separators
    ensures RunsFrom(separators, p + r, 0) == [p] + RunsFrom(separators, p + r, |p|)
  {
    assert p[0] in p;
    assert (p + r)[0] == p[0];
    FindFirstOfPiece(separators, p, r, 1);
    assert (p + r)[0..|p|] == p;
  }

  /** A separator search that ends inside x, or at a boundary y starts with a separator, ignores y. */
  lemma {:induction false} FindFirstOfPrefix(separators: set<char>, x: string, y: string, k: nat)
    requires k <= |x|
    requires FindFirstOf(separators, x, k) < |x| || |y| == 0 || y[0] in separators
    ensures FindFirstOf(separators, x + y, k) == FindFirstOf(separators, x, k)
    decreases |x| - k
  {
    if k == |x| {
      if |y| > 0 {
        assert (x + y)[k] == y[0];
      }
    } else {
      assert (x + y)[k] == x[k];
      if x[k] !in separators {
        FindFirstOfPrefix(separators, x, y, k + 1);
      }
    }
  }

  /**
   * Where x ends with a separator, or y is empty or starts with one, the runs
   * of x + y are the runs of x followed by the runs of y.
   */
  lemma {:induction false} RunsFromAppend(separators: set<char>, x: string, y: string, k: nat)
    requires k <= |x|
    requires (|x| > 0 && x[|x| - 1] in separators) || |y| == 0 || y[0] in separators
    ensures RunsFrom(separators, x + y, k) == RunsFrom(separators, x, k) + RunsFrom(separators, y, 0)
    decreases |x| - k
  {
    var t := x + y;
    if k == |x| {
      RunsFromShift(separators, x, y, 0);
    } else {
      assert t[k] == x[k];
      if x[k] in separators {
        RunsFromAppend(separators, x, y, k + 1);
      } else {
        var end := RunEndsInPrefix(separators, x, y, k);
        RunsFromRun(separators, x, k, end);
        RunsFromRun(separators, t, k, end);
        assert t[k..end] == x[k..end];
        RunsFromAppend(separators, x, y, end);
      }
    }
  }

  /** A run that starts inside x ends where it ends in x alone. */
  lemma RunEndsInPrefix(separators: set<char>, x: string, y: string, k: nat) returns (end: nat)
    requires k < |x| && x[k] !in separators
    requires (|x| > 0 && x[|x| - 1] in separators) || |y| == 0 || y[0] in separators
    ensures end == FindFirstOf(separators, x, k + 1) && end <= |x|
    ensures end == FindFirstOf(separators, x + y, k + 1)
  {
    end := FindFirstOf(separators, x, k + 1);
    FindFirstOfSkips(separators, x, k + 1);
    FindFirstOfPrefix(separators, x, y, k + 1);
  }

  lemma RunsAppend(separators: set<char>, x: string, y: string)
    requires (|x| > 0 && x[|x| - 1] in separators) || |y| == 0 || y[0] in separators
    ensures Runs(separators, x + y) == Runs(separators, x) + Runs(separators, y)
  {
    RunsFromAppend(separators, x, y, 0);
  }

  /** A nonempty separator-free string is one run. */
  lemma RunsOfRun(separators: set<char>, p: string)
    requires |p| > 0 && NoSeparatorIn(separators, p)
    ensures Runs(separators, p) == [p]
  {
    FirstRun(separators, p, "");
    assert p + "" == p;
  }

  /** Empty input, or input made only of separators, gives no tokens. */
  lemma RunsOfSeparatorsOnly(separators: set<char>, s: string)
    requires forall k :: 0 <= k < |s| ==> s[k] in separators
    ensures Runs(separators, s) == []
  {
    RunsSkipSeparators(separators, s, 0, |s|);
  }

  /** Separators never produce tokens: "a,,b,c," gives a, b, c. */
  lemma SplitStringHeaderExample()
    ensures Runs({','}, "a,,b,c,") == ["a", "b", "c"]
  {
    SplitStringHeaderExampleSteps("a,,b,c,");
  }

  lemma SplitStringHeaderExampleSteps(s: string)
    requires |s| == 7 && s[0] == 'a' && s[1] == ',' && s[2] == ',' && s[3] == 'b' && s[4] == ',' && s[5] == 'c' && s[6] == ','
    ensures Runs({','}, s) == ["a", "b", "c"]
  {
    assert RunsFrom({','}, s, 7) == [];
    assert RunsFrom({','}, s, 6) == [];
    assert RunsFrom({','}, s, 5) == ["c"] by {
      assert FindFirstOf({','}, s, 6) == 6;
      assert s[5..6] == "c";
    }
    assert RunsFrom({','}, s, 4) == ["c"];
    assert RunsFrom({','}, s, 3) == ["b", "c"] by {
      assert FindFirstOf({','}, s, 4) == 4;
      assert s[3..4] == "b";
    }
    assert RunsFrom({','}, s, 2) == ["b", "c"];
    assert RunsFrom({','}, s, 1) == ["b", "c"];
    assert RunsFrom({','}, s, 0) == ["a", "b", "c"] by {
      assert FindFirstOf({','}, s, 1) == 1;
      assert s[0..1] == "a";
    }
  }

  /** Any of several separator characters splits: "(x,y), ,(a b)" gives x, y, a, b. */
  lemma SplitStringBracketsExample()
    ensures Runs({'(', ')', ' ', ','}, "(x,y), ,(a b)") == ["x", "y", "a", "b"]
  {
    SplitStringBracketsExampleSteps("(x,y), ,(a b)");
  }

  lemma SplitStringBracketsExampleSteps(s: string)
    requires |s| == 13 && s[0] == '(' && s[1] == 'x' && s[2] == ',' && s[3] == 'y' && s[4] == ')' && s[5] == ',' && s[6] == ' ' && s[7] == ',' && s[8] == '(' && s[9] == 'a' && s[10] == ' ' && s[11] == 'b' && s[12] == ')'
    ensures Runs({'(', ')', ' ', ','}, s) == ["x", "y", "a", "b"]
  {
    assert RunsFrom({'(', ')', ' ', ','}, s, 13) == [];
    assert RunsFrom({'(', ')', ' ', ','}, s, 12) == [];
    assert RunsFrom({'(', ')', ' ', ','}, s, 11) == ["b"] by {
      assert FindFirstOf({'(', ')', ' ', ','}, s, 12) == 12;
      assert s[11..12] == "b";
    }
    assert RunsFrom({'(', ')', ' ', ','}, s, 10) == ["b"];
    assert RunsFrom({'(', ')', ' ', ','}, s, 9) == ["a", "b"] by {
      assert FindFirstOf({'(', ')', ' ', ','}, s, 10) == 10;
      assert s[9..10] == "a";
    }
    assert RunsFrom({'(', ')', ' ', ','}, s, 8) == ["a", "b"];
    assert RunsFrom({'(', ')', ' ', ','}, s, 7) == ["a", "b"];
    assert RunsFrom({'(', ')', ' ', ','}, s, 6) == ["a", "b"];
    assert RunsFrom({'(', ')', ' ', ','}, s, 5) == ["a", "b"];
    assert RunsFrom({'(', ')', ' ', ','}, s, 4) == ["a", "b"];
    assert RunsFrom({'(', ')', ' ', ','}, s, 3) == ["y", "a", "b"] by {
      assert FindFirstOf({'(', ')', ' ', ','}, s, 4) == 4;
      assert s[3..4] == "y";
    }
    assert RunsFrom({'(', ')', ' ', ','}, s, 2) == ["y", "a", "b"];
    assert RunsFrom({'(', ')', ' ', ','}, s, 1) == ["x", "y", "a", "b"] by {
      assert FindFirstOf({'(', ')', ' ', ','}, s, 2) == 2;
      assert s[1..2] == "x";
    }
    assert RunsFrom({'(', ')', ' ', ','}, s, 0) == ["x", "y", "a", "b"];
  }

  /** A run of separators counts once: "a,b,c,,,e" gives four tokens. */
  lemma SplitStringRepeatedSeparatorExample()
    ensures Runs({','}, "a,b,c,,,e") == ["a", "b", "c", "e"]
  {
    SplitStringRepeatedSeparatorExampleSteps("a,b,c,,,e");
  }

  lemma SplitStringRepeatedSeparatorExampleSteps(s: string)
    requires |s| == 9 && s[0] == 'a' && s[1] == ',' && s[2] == 'b' && s[3] == ',' && s[4] == 'c' && s[5] == ',' && s[6] == ',' && s[7] == ',' && s[8] == 'e'
    ensures Runs({','}, s) == ["a", "b", "c", "e"]
  {
    assert RunsFrom({','}, s, 9) == [];
    assert RunsFrom({','}, s, 8) == ["e"] by {
      assert FindFirstOf({','}, s, 9) == 9;
      assert s[8..9] == "e";
    }
    assert RunsFrom({','}, s, 7) == ["e"];
    assert RunsFrom({','}, s, 6) == ["e"];
    assert RunsFrom({','}, s, 5) == ["e"];
    assert RunsFrom({','}, s, 4) == ["c", "e"] by {
      assert FindFirstOf({','}, s, 5) == 5;
      assert s[4..5] == "c";
    }
    assert RunsFrom({','}, s, 3) == ["c", "e"];
    assert RunsFrom({','}, s, 2) == ["b", "c", "e"] by {
      assert FindFirstOf({','}, s, 3) == 3;
      assert s[2..3] == "b";
    }
    assert RunsFrom({','}, s, 1) == ["b", "c", "e"];
    assert RunsFrom({','}, s, 0) == ["a", "b", "c", "e"] by {
      assert FindFirstOf({','}, s, 1) == 1;
      assert s[0..1] == "a";
    }
  }

  /**
   * The reference tokenisation keeping empty tokens, from position pos on:
   * the text up to the next separator, then recursively the text after it.
   */
  function FieldsFrom(separators: set<char>, s: string, pos: nat): (fields: seq<string>)
    requires pos <= |s|
    ensures |fields| >= 1
    decreases |s| - pos
  {
    var i := FindFirstOf(separators, s, pos);
    if i == |s| then [s[pos..]] else [s[pos..i]] + FieldsFrom(separators, s, i + 1)
  }

  function Fields(separators: set<char>, s: string): seq<string>
  {
    FieldsFrom(separators, s, 0)
  }

  /** The fields still to come after the separator at sep, if any. */
  function FieldsAfter(separators: set<char>, s: string, sep: nat): seq<string>
    requires sep <= |s|
  {
    if sep == |s| then [] else FieldsFrom(separators, s, sep + 1)
  }

  /** The fields are the text before the first separator, then those after it. */
  lemma FieldsFirst(separators: set<char>, s: string, i: nat)
    requires i == FindFirstOf(separators, s, 0)
    ensures Fields(separators, s) == [s[..i]] + FieldsAfter(separators, s, i)
  {
    if i == |s| {
      assert s[0..] == s[..i];
    } else {
      assert s[0..i] == s[..i];
    }
  }

  /** After the separator at sep, the next field runs up to the next separator. */
  lemma FieldsAfterStep(separators: set<char>, s: string, sep: nat, next: nat)
    requires sep < |s| && next == FindFirstOf(separators, s, sep + 1)
    ensures FieldsAfter(separators, s, sep) == [s[sep + 1..next]] + FieldsAfter(separators, s, next)
  {
    if next == |s| {
      assert s[sep + 1..] == s[sep + 1..next];
    }
  }

  /** The tokeniser that keeps empty tokens. */
  method SplitStringPreserve(separators: set<char>, input: string) returns (tokens: seq<string>)
    ensures tokens == Fields(separators, input)
  {
    var nextSep := FindFirstOf(separators, input, 0);
    FieldsFirst(separators, input, nextSep);
    if nextSep == |input| {
      tokens := [input];
      return;
    }
    tokens := [input[..nextSep]];
    while nextSep != |input|
      invariant nextSep <= |input|
      invariant tokens + FieldsAfter(separators, input, nextSep) == Fields(separators, input)
      decreases |input| - nextSep
    {
      var prevSep := nextSep;
      nextSep := FindFirstOf(separators, input, prevSep + 1);
      FieldsAfterStep(separators, input, prevSep, nextSep);
      tokens := tokens + [input[prevSep + 1..nextSep]];
    }
  }

  /** The separator characters of s from pos on, in order. */
  function SeparatorsFrom(separators: set<char>, s: string, pos: nat): string
    requires pos <= |s|
    decreases |s| - pos
  {
    if pos == |s| then []
    else (if s[pos] in separators then [s[pos]] else []) + SeparatorsFrom(separators, s, pos + 1)
  }

  function SeparatorsOf(separators: set<char>, s: string): string
  {
    SeparatorsFrom(separators, s, 0)
  }

  /** fields[0] + glue[0] + fields[1] + ... + fields[n]. */
  function Join(fields: seq<string>, glue: string): string
    requires |fields| == |glue| + 1
  {
    if |fields| == 1 then fields[0] else fields[0] + [glue[0]] + Join(fields[1..], glue[1..])
  }

  lemma JoinCons(field: string, c: char, fields: seq<string>, glue: string)
    requires |fields| == |glue| + 1
    ensures Join([field] + fields, [c] + glue) == field + [c] + Join(fields, glue)
  {
    assert ([field] + fields)[1..] == fields;
    assert ([c] + glue)[1..] == glue;
  }

  /** A stretch without separators contributes none. */
  lemma {:induction false} SeparatorsSkipRun(separators: set<char>, s: string, pos: nat, end: nat)
    requires pos <= end <= |s|
    requires forall k :: pos <= k < end ==> s[k] !in separators
    ensures SeparatorsFrom(separators, s, pos) == SeparatorsFrom(separators, s, end)
    decreases end - pos
  {
    if pos < end {
      SeparatorsSkipRun(separators, s, pos + 1, end);
    }
  }

  /** The separators from pos on are the next one followed by those after it. */
  lemma SeparatorsAtNext(separators: set<char>, s: string, pos: nat)
    requires pos <= |s|
    ensures var i := FindFirstOf(separators, s, pos);
      SeparatorsFrom(separators, s, pos)
        == if i == |s| then [] else [s[i]] + SeparatorsFrom(separators, s, i + 1)
  {
    var i := FindFirstOf(separators, s, pos);
    FindFirstOfSkips(separators, s, pos);
    SeparatorsSkipRun(separators, s, pos, i);
  }

  /** There is one more field than there are separators. */
  lemma {:induction false} FieldsFromCount(separators: set<char>, s: string, pos: nat)
    requires pos <= |s|
    ensures |FieldsFrom(separators, s, pos)| == |SeparatorsFrom(separators, s, pos)| + 1
    decreases |s| - pos
  {
    var i := FindFirstOf(separators, s, pos);
    SeparatorsAtNext(separators, s, pos);
    if i < |s| {
      FieldsFromCount(separators, s, i + 1);
    }
  }

  /** No field holds a separator. */
  lemma {:induction false} FieldsFromHaveNoSeparator(separators: set<char>, s: string, pos: nat)
    requires pos <= |s|
    ensures forall f :: f in FieldsFrom(separators, s, pos) ==> NoSeparatorIn(separators, f)
    decreases |s| - pos
  {
    var i := FindFirstOf(separators, s, pos);
    RunHasNoSeparator(separators, s, pos);
    if i < |s| {
      FieldsFromHaveNoSeparator(separators, s, i + 1);
    }
  }

  /** Joining the fields with the separators between them rebuilds the input. */
  lemma {:induction false} FieldsFromJoin(separators: set<char>, s: string, pos: nat)
    requires pos <= |s|
    ensures |FieldsFrom(separators, s, pos)| == |SeparatorsFrom(separators, s, pos)| + 1
    ensures Join(FieldsFrom(separators, s, pos), SeparatorsFrom(separators, s, pos)) == s[pos..]
    decreases |s| - pos
  {
    FieldsFromCount(separators, s, pos);
    var i := FindFirstOf(separators, s, pos);
    SeparatorsAtNext(separators, s, pos);
    if i < |s| {
      FieldsFromJoin(separators, s, i + 1);
      JoinAround(s, pos, i, FieldsFrom(separators, s, i + 1), SeparatorsFrom(separators, s, i + 1));
    }
  }

  /** A field, the separator after it and the joined rest make up the text. */
  lemma JoinAround(s: string, pos: nat, i: nat, rest: seq<string>, restGlue: string)
    requires pos <= i < |s|
    requires |rest| == |restGlue| + 1 && Join(rest, restGlue) == s[i + 1..]
    ensures Join([s[pos..i]] + rest, [s[i]] + restGlue) == s[pos..]
  {
    calc {
      Join([s[pos..i]] + rest, [s[i]] + restGlue);
      { JoinCons(s[pos..i], s[i], rest, restGlue); }
      s[pos..i] + [s[i]] + s[i + 1..];
      { SliceAround(s, pos, i); }
      s[pos..];
    }
  }

  lemma SliceAround(s: string, pos: nat, i: nat)
    requires pos <= i < |s|
    ensures s[pos..i] + [s[i]] + s[i + 1..] == s[pos..]
  {
  }

  /**
   * There is one more field than separators, no field holds a separator, and
   * joining the fields with the separators of the input rebuilds the input.
   */
  lemma FieldsRebuildInput(separators: set<char>, s: string)
    ensures |Fields(separators, s)| == |SeparatorsOf(separators, s)| + 1
    ensures forall f :: f in Fields(separators, s) ==> NoSeparatorIn(separators, f)
    ensures Join(Fields(separators, s), SeparatorsOf(separators, s)) == s
  {
    FieldsFromHaveNoSeparator(separators, s, 0);
    FieldsFromJoin(separators, s, 0);
    assert s[0..] == s;
  }

  /** Input without any separator is the single field; empty input gives [""]. */
  lemma FieldsOfNoSeparator(separators: set<char>, s: string)
    requires forall k :: 0 <= k < |s| ==> s[k] !in separators
    ensures Fields(separators, s) == [s]
  {
    assert s[0..] == s;
  }

  /** Every separator ends a field: ",,b,,,e,," gives eight fields. */
  lemma SplitStringPreserveExample()
    ensures Fields({','}, ",,b,,,e,,") == ["", "", "b", "", "", "e", "", ""]
  {
    SplitStringPreserveExampleSteps(",,b,,,e,,");
  }

  lemma SplitStringPreserveExampleSteps(s: string)
    requires |s| == 9 && s[0] == ',' && s[1] == ',' && s[2] == 'b' && s[3] == ',' && s[4] == ',' && s[5] == ',' && s[6] == 'e' && s[7] == ',' && s[8] == ','
    ensures Fields({','}, s) == ["", "", "b", "", "", "e", "", ""]
  {
    assert FieldsFrom({','}, s, 9) == [""] by {
      assert FindFirstOf({','}, s, 9) == 9;
      assert s[9..] == "";
    }
    assert FieldsFrom({','}, s, 8) == ["", ""] by {
      assert FindFirstOf({','}, s, 8) == 8;
      assert s[8..8] == "";
    }
    assert FieldsFrom({','}, s, 6) == ["e", "", ""] by {
      assert FindFirstOf({','}, s, 6) == 7;
      assert s[6..7] == "e";
    }
    assert FieldsFrom({','}, s, 5) == ["", "e", "", ""] by {
      assert FindFirstOf({','}, s, 5) == 5;
      assert s[5..5] == "";
    }
    assert FieldsFrom({','}, s, 4) == ["", "", "e", "", ""] by {
      assert FindFirstOf({','}, s, 4) == 4;
      assert s[4..4] == "";
    }
    assert FieldsFrom({','}, s, 2) == ["b", "", "", "e", "", ""] by {
      assert FindFirstOf({','}, s, 2) == 3;
      assert s[2..3] == "b";
    }
    assert FieldsFrom({','}, s, 1) == ["", "b", "", "", "e", "", ""] by {
      assert FindFirstOf({','}, s, 1) == 1;
      assert s[1..1] == "";
    }
    assert FieldsFrom({','}, s, 0) == ["", "", "b", "", "", "e", "", ""] by {
      assert FindFirstOf({','}, s, 0) == 0;
      assert s[0..0] == "";
    }
  }

  /** Empty fields are kept: "a,,b,c," gives a, "", b, c, "". */
  lemma SplitStringPreserveHeaderExample()
    ensures Fields({','}, "a,,b,c,") == ["a", "", "b", "c", ""]
  {
    SplitStringPreserveHeaderExampleSteps("a,,b,c,");
  }

  lemma SplitStringPreserveHeaderExampleSteps(s: string)
    requires |s| == 7 && s[0] == 'a' && s[1] == ',' && s[2] == ',' && s[3] == 'b' && s[4] == ',' && s[5] == 'c' && s[6] == ','
    ensures Fields({','}, s) == ["a", "", "b", "c", ""]
  {
    assert FieldsFrom({','}, s, 7) == [""] by {
      assert FindFirstOf({','}, s, 7) == 7;
      assert s[7..] == "";
    }
    assert FieldsFrom({','}, s, 5) == ["c", ""] by {
      assert FindFirstOf({','}, s, 5) == 6;
      assert s[5..6] == "c";
    }
    assert FieldsFrom({','}, s, 3) == ["b", "c", ""] by {
      assert FindFirstOf({','}, s, 3) == 4;
      assert s[3..4] == "b";
    }
    assert FieldsFrom({','}, s, 2) == ["", "b", "c", ""] by {
      assert FindFirstOf({','}, s, 2) == 2;
      assert s[2..2] == "";
    }
    assert FieldsFrom({','}, s, 0) == ["a", "", "b", "c", ""] by {
      assert FindFirstOf({','}, s, 0) == 1;
      assert s[0..1] == "a";
    }
  }
}
