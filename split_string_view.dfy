/**
 * `ies::SplitStringView` and `ies::SplitStringViewPreserve`: the same
 * tokenisers as `SplitString`, returning views into the input instead of
 * copies. A view is a (start, length) window of the input.
 */
module SplitStringView {
  import opened SplitString

  datatype View = View(start: nat, length: nat)
  {
    function End(): nat { start + length }
  }

  predicate AllWithin(input: string, views: seq<View>)
  {
    forall k :: 0 <= k < |views| ==> views[k].End() <= |input|
  }

  /** The texts the views show, in order. */
  function Texts(input: string, views: seq<View>): (texts: seq<string>)
    requires AllWithin(input, views)
    ensures |texts| == |views|
  {
    if views == [] then []
    else [input[views[0].start..views[0].End()]] + Texts(input, views[1..])
  }

  /** Views that do not touch: each ends strictly before the next begins. */
  predicate Separated(views: seq<View>)
  {
    forall k :: 0 <= k < |views| - 1 ==> views[k].End() < views[k + 1].start
  }

  /** The views of the maximal runs of s from pos on. */
  function RunViewsFrom(separators: set<char>, s: string, pos: nat): seq<View>
    requires pos <= |s|
    decreases |s| - pos
  {
    if pos == |s| then []
    else if s[pos] in separators then RunViewsFrom(separators, s, pos + 1)
    else
      var end := FindFirstOf(separators, s, pos + 1);
      [View(pos, end - pos)] + RunViewsFrom(separators, s, end)
  }

  lemma AllWithinCons(s: string, head: View, rest: seq<View>)
    requires head.End() <= |s| && AllWithin(s, rest)
    ensures AllWithin(s, [head] + rest)
  {
    var views := [head] + rest;
    forall k | 0 <= k < |views| ensures views[k].End() <= |s| {
      if k > 0 {
        assert views[k] == rest[k - 1];
      }
    }
  }

  lemma TextsCons(s: string, head: View, rest: seq<View>)
    requires head.End() <= |s| && AllWithin(s, rest)
    ensures AllWithin(s, [head] + rest)
    ensures Texts(s, [head] + rest) == [s[head.start..head.End()]] + Texts(s, rest)
  {
    AllWithinCons(s, head, rest);
    assert ([head] + rest)[1..] == rest;
  }

  /** Every run view lies within s. */
  lemma {:induction false} RunViewsFromWithin(separators: set<char>, s: string, pos: nat)
    requires pos <= |s|
    ensures AllWithin(s, RunViewsFrom(separators, s, pos))
    decreases |s| - pos
  {
    if pos < |s| {
      if s[pos] in separators {
        RunViewsFromWithin(separators, s, pos + 1);
      } else {
        var end := FindFirstOf(separators, s, pos + 1);
        RunViewsFromWithin(separators, s, end);
        AllWithinCons(s, View(pos, end - pos), RunViewsFrom(separators, s, end));
      }
    }
  }

  /** Each run view starts after pos on a non-separator and is non-empty. */
  lemma {:induction false} RunViewsFromShape(separators: set<char>, s: string, pos: nat)
    requires pos <= |s|
    ensures forall v :: v in RunViewsFrom(separators, s, pos) ==>
      pos <= v.start < |s| && v.length > 0 && s[v.start] !in separators
    decreases |s| - pos
  {
    if pos < |s| {
      if s[pos] in separators {
        RunViewsFromShape(separators, s, pos + 1);
      } else {
        RunViewsFromShape(separators, s, FindFirstOf(separators, s, pos + 1));
      }
    }
  }

  lemma SeparatedCons(head: View, rest: seq<View>)
    requires Separated(rest)
    requires rest != [] ==> head.End() < rest[0].start
    ensures Separated([head] + rest)
  {
    var views := [head] + rest;
    forall k | 0 <= k < |views| - 1 ensures views[k].End() < views[k + 1].start {
      if k > 0 {
        assert views[k] == rest[k - 1] && views[k + 1] == rest[k];
      }
    }
  }

  /** Run views are separated from each other. */
  lemma {:induction false} RunViewsFromSeparated(separators: set<char>, s: string, pos: nat)
    requires pos <= |s|
    ensures Separated(RunViewsFrom(separators, s, pos))
    decreases |s| - pos
  {
    if pos < |s| {
      if s[pos] in separators {
        RunViewsFromSeparated(separators, s, pos + 1);
      } else {
        var end := FindFirstOf(separators, s, pos + 1);
        var rest := RunViewsFrom(separators, s, end);
        RunViewsFromSeparated(separators, s, end);
        RunViewsFromShape(separators, s, end);
        if rest != [] {
          assert rest[0] in rest;
          assert end < |s| && s[end] in separators;
        }
        SeparatedCons(View(pos, end - pos), rest);
      }
    }
  }

  /** The run views show exactly the tokens of `SplitString`. */
  lemma {:induction false} RunViewsFromTexts(separators: set<char>, s: string, pos: nat)
    requires pos <= |s|
    ensures AllWithin(s, RunViewsFrom(separators, s, pos))
    ensures Texts(s, RunViewsFrom(separators, s, pos)) == RunsFrom(separators, s, pos)
    decreases |s| - pos
  {
    if pos < |s| {
      if s[pos] in separators {
        RunViewsFromTexts(separators, s, pos + 1);
      } else {
        var end := FindFirstOf(separators, s, pos + 1);
        RunViewsFromTexts(separators, s, end);
        TextsCons(s, View(pos, end - pos), RunViewsFrom(separators, s, end));
      }
    }
  }

  /** The tokeniser of the source, returning views. */
  method SplitStringView(separators: set<char>, input: string) returns (views: seq<View>)
    ensures views == RunViewsFrom(separators, input, 0)
  {
    views := [];
    var end := 0;
    var start := FindFirstNotOf(separators, input, 0);
    RunViewsLoopEntry(separators, input);
    while start != |input|
      invariant start <= |input|
      invariant start < |input| ==> input[start] !in separators
      invariant views + RunViewsFrom(separators, input, start) == RunViewsFrom(separators, input, 0)
      decreases |input| - start
    {
      end := FindFirstOf(separators, input, start + 1);
      RunViewsLoopStep(separators, input, views, start);
      views := views + [View(start, end - start)];
      start := FindFirstNotOf(separators, input, end);
    }
  }

  /** Everything the source promises of the views `SplitStringView` returns. */
  lemma RunViewsProperties(separators: set<char>, input: string)
    ensures AllWithin(input, RunViewsFrom(separators, input, 0))
    ensures Texts(input, RunViewsFrom(separators, input, 0)) == Runs(separators, input)
    ensures forall v :: v in RunViewsFrom(separators, input, 0) ==> v.length > 0
    ensures Separated(RunViewsFrom(separators, input, 0))
  {
    RunViewsFromShape(separators, input, 0);
    RunViewsFromSeparated(separators, input, 0);
    RunViewsFromTexts(separators, input, 0);
  }

  /** The loop of `SplitStringView` starts at the first non-separator. */
  lemma RunViewsLoopEntry(separators: set<char>, input: string)
    ensures FindFirstNotOf(separators, input, 0) < |input| ==>
      input[FindFirstNotOf(separators, input, 0)] !in separators
    ensures RunViewsFrom(separators, input, FindFirstNotOf(separators, input, 0)) == RunViewsFrom(separators, input, 0)
  {
    FindFirstNotOfSkips(separators, input, 0);
    RunViewsSkipSeparators(separators, input, 0, FindFirstNotOf(separators, input, 0));
  }

  /** One turn of the loop of `SplitStringView` keeps its invariant. */
  lemma RunViewsLoopStep(separators: set<char>, input: string, views: seq<View>, start: nat)
    requires start < |input| && input[start] !in separators
    requires views + RunViewsFrom(separators, input, start) == RunViewsFrom(separators, input, 0)
    ensures var end := FindFirstOf(separators, input, start + 1);
      var next := FindFirstNotOf(separators, input, end);
      && start < end <= next <= |input|
      && (next < |input| ==> input[next] !in separators)
      && (views + [View(start, end - start)]) + RunViewsFrom(separators, input, next) == RunViewsFrom(separators, input, 0)
  {
    var end := FindFirstOf(separators, input, start + 1);
    var next := FindFirstNotOf(separators, input, end);
    FindFirstNotOfSkips(separators, input, end);
    RunViewsSkipSeparators(separators, input, end, next);
    AppendAssociative(views, [View(start, end - start)], RunViewsFrom(separators, input, next));
  }

  lemma {:induction false} RunViewsSkipSeparators(separators: set<char>, s: string, a: nat, b: nat)
    requires a <= b <= |s|
    requires forall k :: a <= k < b ==> s[k] in separators
    ensures RunViewsFrom(separators, s, a) == RunViewsFrom(separators, s, b)
    decreases b - a
  {
    if a < b {
      RunViewsSkipSeparators(separators, s, a + 1, b);
    }
  }

  /** The views of the fields of s from pos on. */
  function FieldViewsFrom(separators: set<char>, s: string, pos: nat): (views: seq<View>)
    requires pos <= |s|
    ensures |views| >= 1
    decreases |s| - pos
  {
    var i := FindFirstOf(separators, s, pos);
    if i == |s| then [View(pos, |s| - pos)] else [View(pos, i - pos)] + FieldViewsFrom(separators, s, i + 1)
  }

  /** Views that tile s from pos on, one separator between neighbours. */
  predicate Tiling(s: string, pos: nat, views: seq<View>)
  {
    && |views| >= 1
    && views[0].start == pos
    && views[|views| - 1].End() == |s|
    && forall k :: 0 <= k < |views| - 1 ==> views[k + 1].start == views[k].End() + 1
  }

  lemma TilingCons(s: string, head: View, rest: seq<View>)
    requires Tiling(s, head.End() + 1, rest)
    ensures Tiling(s, head.start, [head] + rest)
  {
    var views := [head] + rest;
    forall k | 0 <= k < |views| - 1 ensures views[k + 1].start == views[k].End() + 1 {
      if k > 0 {
        assert views[k] == rest[k - 1] && views[k + 1] == rest[k];
      }
    }
  }

  /** Field views tile s from pos on. */
  lemma {:induction false} FieldViewsFromTile(separators: set<char>, s: string, pos: nat)
    requires pos <= |s|
    ensures Tiling(s, pos, FieldViewsFrom(separators, s, pos))
    decreases |s| - pos
  {
    var i := FindFirstOf(separators, s, pos);
    if i < |s| {
      FieldViewsFromTile(separators, s, i + 1);
      TilingCons(s, View(pos, i - pos), FieldViewsFrom(separators, s, i + 1));
    }
  }

  /** The field views show exactly the fields of `SplitStringPreserve`. */
  lemma {:induction false} FieldViewsFromTexts(separators: set<char>, s: string, pos: nat)
    requires pos <= |s|
    ensures AllWithin(s, FieldViewsFrom(separators, s, pos))
    ensures Texts(s, FieldViewsFrom(separators, s, pos)) == FieldsFrom(separators, s, pos)
    decreases |s| - pos
  {
    var i := FindFirstOf(separators, s, pos);
    if i < |s| {
      var rest := FieldViewsFrom(separators, s, i + 1);
      assert FieldViewsFrom(separators, s, pos) == [View(pos, i - pos)] + rest;
      assert FieldsFrom(separators, s, pos) == [s[pos..i]] + FieldsFrom(separators, s, i + 1);
      FieldViewsFromTexts(separators, s, i + 1);
      TextsCons(s, View(pos, i - pos), rest);
    } else {
      assert FieldViewsFrom(separators, s, pos) == [View(pos, |s| - pos)] + [];
      assert FieldsFrom(separators, s, pos) == [s[pos..]];
      TextsCons(s, View(pos, |s| - pos), []);
      assert s[pos..pos + (|s| - pos)] == s[pos..];
    }
  }

  /** The views still to come after the separator at sep, if any. */
  function FieldViewsAfter(separators: set<char>, s: string, sep: nat): seq<View>
    requires sep <= |s|
  {
    if sep == |s| then [] else FieldViewsFrom(separators, s, sep + 1)
  }

  lemma FieldViewsAfterStep(separators: set<char>, s: string, sep: nat)
    requires sep < |s|
    ensures FindFirstOf(separators, s, sep + 1) <= |s|
    ensures FieldViewsAfter(separators, s, sep) ==
      [View(sep + 1, FindFirstOf(separators, s, sep + 1) - (sep + 1))]
      + FieldViewsAfter(separators, s, FindFirstOf(separators, s, sep + 1))
  {
  }

  /** Everything the source promises of the views `SplitStringViewPreserve` returns. */
  lemma FieldViewsProperties(separators: set<char>, input: string)
    ensures AllWithin(input, FieldViewsFrom(separators, input, 0))
    ensures Texts(input, FieldViewsFrom(separators, input, 0)) == Fields(separators, input)
    ensures Tiling(input, 0, FieldViewsFrom(separators, input, 0))
  {
    FieldViewsFromTile(separators, input, 0);
    FieldViewsFromTexts(separators, input, 0);
  }

  /** One turn of the loop of `SplitStringViewPreserve` keeps its invariant. */
  lemma FieldViewsLoopStep(separators: set<char>, input: string, views: seq<View>, prevSep: nat)
    requires prevSep < |input|
    requires views + FieldViewsAfter(separators, input, prevSep) == FieldViewsFrom(separators, input, 0)
    ensures prevSep < FindFirstOf(separators, input, prevSep + 1) + 1 <= |input| + 1
    ensures var nextSep := FindFirstOf(separators, input, prevSep + 1);
      (views + [View(prevSep + 1, nextSep - (prevSep + 1))]) + FieldViewsAfter(separators, input, nextSep)
      == FieldViewsFrom(separators, input, 0)
  {
    var nextSep := FindFirstOf(separators, input, prevSep + 1);
    FieldViewsAfterStep(separators, input, prevSep);
    AppendAssociative(views, [View(prevSep + 1, nextSep - (prevSep + 1))], FieldViewsAfter(separators, input, nextSep));
  }

  /** The first view ends at the first separator; the rest follow it. */
  lemma FieldViewsFirst(separators: set<char>, s: string)
    ensures FieldViewsFrom(separators, s, 0)
      == [View(0, FindFirstOf(separators, s, 0))] + FieldViewsAfter(separators, s, FindFirstOf(separators, s, 0))
  {
    if FindFirstOf(separators, s, 0) == |s| {
      assert [View(0, |s|)] + [] == [View(0, |s|)];
    }
  }

  lemma AppendAssociative<T>(a: seq<T>, b: seq<T>, c: seq<T>)
    ensures a + (b + c) == (a + b) + c
  {
  }

  /** The tokeniser that keeps empty tokens, returning views. */
  method SplitStringViewPreserve(separators: set<char>, input: string) returns (views: seq<View>)
    ensures views == FieldViewsFrom(separators, input, 0)
  {
    var nextSep := FindFirstOf(separators, input, 0);
    FieldViewsFirst(separators, input);
    if nextSep == |input| {
      views := [View(0, |input|)];
    } else {
      views := [View(0, nextSep)];
    }
    while nextSep != |input|
      invariant nextSep <= |input|
      invariant views + FieldViewsAfter(separators, input, nextSep) == FieldViewsFrom(separators, input, 0)
      decreases |input| - nextSep
    {
      var prevSep := nextSep;
      nextSep := FindFirstOf(separators, input, prevSep + 1);
      FieldViewsLoopStep(separators, input, views, prevSep);
      views := views + [View(prevSep + 1, nextSep - (prevSep + 1))];
    }
  }
}
