/**
 * `RecursiveReplace` with the pattern "//" and a replacement of at most one
 * slash, on texts made of letters each followed by a run of slashes: every
 * run shrinks two slashes at a time while the search stays at its start.
 */
module RecursiveReplaceRuns {
  import opened Wrappers
  import opened RecursiveReplace

  function Slashes(n: nat): (r: string)
    ensures |r| == n && forall i :: 0 <= i < n ==> r[i] == '/'
  {
    seq(n, _ => '/')
  }

  /** The text of letters each followed by a run of slashes of the given length. */
  function Joined(segs: seq<(char, nat)>): string
  {
    if segs == [] then [] else [segs[0].0] + Slashes(segs[0].1) + Joined(segs[1..])
  }

  /** What is left of a run of n slashes when each "//" becomes t slashes (t < 2). */
  function Residue(n: nat, t: nat): (r: nat)
    requires t < 2
    ensures t == 1 ==> r == (if n == 0 then 0 else 1)
    ensures t == 0 ==> r == n % 2
    decreases n
  {
    if n < 2 then n else Residue(n - 2 + t, t)
  }

  /** Every run replaced by its residue, the letters kept. */
  function Collapsed(segs: seq<(char, nat)>, t: nat): (r: seq<(char, nat)>)
    requires t < 2
    ensures |r| == |segs|
    ensures forall i :: 0 <= i < |segs| ==> r[i] == (segs[i].0, Residue(segs[i].1, t))
  {
    if segs == [] then [] else [(segs[0].0, Residue(segs[0].1, t))] + Collapsed(segs[1..], t)
  }

  /** Positions without an occurrence can be passed over: the loop finds the same next occurrence. */
  lemma RewriteSkip(s: string, from: string, to: string, pos: nat, q: nat)
    requires from != [] && !Contains(to, from) && pos <= q
    requires forall k :: pos <= k < q ==> !OccursAt(s, from, k)
    ensures RewriteFrom(s, from, to, pos).text == RewriteFrom(s, from, to, q).text
  {
    var f := Find(s, from, pos);
    var g := Find(s, from, q);
    if f.Some? && f.value >= q {
      assert g == f;
    }
  }

  /** Searching from an occurrence finds it. */
  lemma FindAtOccurrence(s: string, pattern: string, p: nat)
    requires OccursAt(s, pattern, p)
    ensures Find(s, pattern, p) == Some(p)
  {
  }

  /** A run of n >= 2 slashes at the search position loses two slashes and gains `to`. */
  lemma RunShrinks(x: string, n: nat, y: string, to: string)
    requires n >= 2 && to == Slashes(|to|) && |to| < 2
    ensures RewriteFrom(x + Slashes(n) + y, "//", to, |x|).text
      == RewriteFrom(x + Slashes(n - 2 + |to|) + y, "//", to, |x|).text
  {
    ShortHoldsNoPair(to);
    PairAtRun(x, n, y);
    FindAtOccurrence(x + Slashes(n) + y, "//", |x|);
    ReplaceInRun(x, n, y, to);
  }

  lemma PairAtRun(x: string, n: nat, y: string)
    requires n >= 2
    ensures OccursAt(x + Slashes(n) + y, "//", |x|)
  {
    var s := x + Slashes(n) + y;
    assert s[|x|..|x| + 2] == "//";
  }

  lemma ReplaceInRun(x: string, n: nat, y: string, to: string)
    requires n >= 2 && to == Slashes(|to|)
    ensures Replace(x + Slashes(n) + y, |x|, 2, to) == x + Slashes(n - 2 + |to|) + y
  {
    var s := x + Slashes(n) + y;
    assert s[..|x|] == x;
    assert s[|x| + 2..] == Slashes(n - 2) + y;
    assert to + Slashes(n - 2) == Slashes(n - 2 + |to|);
  }

  lemma {:induction false} CollapseRun(x: string, n: nat, y: string, to: string)
    requires to == Slashes(|to|) && |to| < 2
    ensures RewriteFrom(x + Slashes(n) + y, "//", to, |x|).text
      == RewriteFrom(x + Slashes(Residue(n, |to|)) + y, "//", to, |x|).text
    decreases n
  {
    ShortHoldsNoPair(to);
    if n >= 2 {
      var m := n - 2 + |to|;
      assert Residue(n, |to|) == Residue(m, |to|);
      calc {
        RewriteFrom(x + Slashes(n) + y, "//", to, |x|).text;
      == { RunShrinks(x, n, y, to); }
        RewriteFrom(x + Slashes(m) + y, "//", to, |x|).text;
      == { CollapseRun(x, m, y, to); }
        RewriteFrom(x + Slashes(Residue(m, |to|)) + y, "//", to, |x|).text;
      }
    }
  }

  /** No letter of the segments is a slash. */
  predicate Letters(segs: seq<(char, nat)>)
  {
    forall i :: 0 <= i < |segs| ==> segs[i].0 != '/'
  }

  /** A non-empty joined text starts with its first letter. */
  lemma JoinedStart(segs: seq<(char, nat)>)
    ensures |Joined(segs)| == 0 <==> segs == []
    ensures segs != [] ==> Joined(segs)[0] == segs[0].0
  {
  }

  /** A position holding no slash starts no "//". */
  lemma NoPairAt(s: string, k: nat)
    requires k < |s| && s[k] != '/'
    ensures !OccursAt(s, "//", k)
  {
    if k + 2 <= |s| {
      assert s[k..k + 2][0] == s[k];
    }
  }

  /** A position followed by no slash starts no "//". */
  lemma NoPairBefore(s: string, k: nat)
    requires k + 1 >= |s| || s[k + 1] != '/'
    ensures !OccursAt(s, "//", k)
  {
    if k + 2 <= |s| {
      assert s[k..k + 2][1] == s[k + 1];
    }
  }

  /** A replacement of at most one character holds no "//". */
  lemma ShortHoldsNoPair(to: string)
    requires |to| < 2
    ensures !Contains(to, "//")
  {
  }

  /** The loop passes a position that starts no "//". */
  lemma SkipOne(s: string, k: nat, to: string)
    requires |to| < 2 && !OccursAt(s, "//", k)
    ensures RewriteFrom(s, "//", to, k).text == RewriteFrom(s, "//", to, k + 1).text
  {
    ShortHoldsNoPair(to);
    RewriteSkip(s, "//", to, k, k + 1);
  }

  /** The first segment taken apart, the text before it attached to its letter. */
  lemma SplitFirst(p: string, segs: seq<(char, nat)>)
    requires segs != []
    ensures p + Joined(segs) == (p + [segs[0].0]) + Slashes(segs[0].1) + Joined(segs[1..])
    ensures (p + Joined(segs))[|p|] == segs[0].0
  {
    var c, a, b := segs[0].0, Slashes(segs[0].1), Joined(segs[1..]);
    assert Joined(segs) == [c] + a + b;
    assert p + ([c] + a + b) == (p + [c]) + a + b;
  }

  /** The loop passes the letter at the start of the segments: it cannot start a "//". */
  lemma PassLetter(p: string, segs: seq<(char, nat)>, to: string)
    requires |to| < 2 && segs != [] && segs[0].0 != '/'
    ensures RewriteFrom(p + Joined(segs), "//", to, |p|).text
      == RewriteFrom((p + [segs[0].0]) + Slashes(segs[0].1) + Joined(segs[1..]), "//", to, |p| + 1).text
  {
    SplitFirst(p, segs);
    NoPairAt(p + Joined(segs), |p|);
    SkipOne(p + Joined(segs), |p|, to);
  }

  /** The loop passes what is left of a run, at most one slash followed by a letter or the end. */
  lemma PassResidue(x: string, r: nat, segs: seq<(char, nat)>, to: string)
    requires |to| < 2 && r < 2 && Letters(segs)
    ensures RewriteFrom(x + Slashes(r) + Joined(segs), "//", to, |x|).text
      == RewriteFrom((x + Slashes(r)) + Joined(segs), "//", to, |x + Slashes(r)|).text
  {
    ShortHoldsNoPair(to);
    assert |x + Slashes(r)| == |x| + r;
    if r == 1 {
      var s := x + Slashes(r) + Joined(segs);
      JoinedStart(segs);
      if segs != [] {
        assert s[|x| + 1] == Joined(segs)[0];
      }
      NoPairBefore(s, |x|);
      SkipOne(s, |x|, to);
    }
  }

  /** Dropping the first segment keeps the letters free of slashes, and collapsing goes segment by segment. */
  lemma SegmentsTail(segs: seq<(char, nat)>, t: nat)
    requires segs != [] && Letters(segs) && t < 2
    ensures Letters(segs[1..])
    ensures Joined(Collapsed(segs, t))
      == [segs[0].0] + Slashes(Residue(segs[0].1, t)) + Joined(Collapsed(segs[1..], t))
  {
    forall i | 0 <= i < |segs[1..]| ensures segs[1..][i].0 != '/' {
      assert segs[1..][i] == segs[i + 1];
    }
    assert Collapsed(segs, t)[1..] == Collapsed(segs[1..], t);
  }

  /**
   * From the start of the segments, the loop collapses every run in turn:
   * it passes the letter, shrinks the run, and passes what is left of it.
   */
  lemma {:induction false} SegmentsCollapse(p: string, segs: seq<(char, nat)>, to: string)
    requires to == Slashes(|to|) && |to| < 2 && Letters(segs)
    ensures RewriteFrom(p + Joined(segs), "//", to, |p|).text == p + Joined(Collapsed(segs, |to|))
    decreases |segs|
  {
    ShortHoldsNoPair(to);
    if segs == [] {
      assert p + Joined(segs) == p;
    } else {
      var x := p + [segs[0].0];
      var r := Residue(segs[0].1, |to|);
      var q := x + Slashes(r);
      var rest := Joined(segs[1..]);
      SegmentsTail(segs, |to|);
      calc {
        RewriteFrom(p + Joined(segs), "//", to, |p|).text;
      == { PassLetter(p, segs, to); }
        RewriteFrom(x + Slashes(segs[0].1) + rest, "//", to, |x|).text;
      == { CollapseRun(x, segs[0].1, rest, to); }
        RewriteFrom(x + Slashes(r) + rest, "//", to, |x|).text;
      == { PassResidue(x, r, segs[1..], to); }
        RewriteFrom(q + rest, "//", to, |q|).text;
      == { SegmentsCollapse(q, segs[1..], to); }
        q + Joined(Collapsed(segs[1..], |to|));
      == { assert q + Joined(Collapsed(segs[1..], |to|)) == p + ([segs[0].0] + Slashes(r) + Joined(Collapsed(segs[1..], |to|))); }
        p + Joined(Collapsed(segs, |to|));
      }
    }
  }

  /**
   * Replacing "//" by "/" leaves a single slash of every run, and replacing
   * it by "" leaves a run's parity: the loop never has to look back.
   */
  lemma RunsCollapse(segs: seq<(char, nat)>, to: string)
    requires (to == "/" || to == "") && Letters(segs)
    ensures RecursiveReplaced(Joined(segs), "//", to) == Joined(Collapsed(segs, |to|))
  {
    assert to == Slashes(|to|);
    SegmentsCollapse([], segs, to);
    assert [] + Joined(segs) == Joined(segs);
  }

  /** The text of the header's example and of the tests: "a///////b//c/d//e////". */
  lemma ExampleText()
    ensures Joined([('a', 7), ('b', 2), ('c', 1), ('d', 2), ('e', 4)]) == "a///////b//c/d//e////"
  {
    SlashRuns();
  }

  /** The runs of the example, written out. */
  lemma SlashRuns()
    ensures Slashes(0) == "" && Slashes(1) == "/" && Slashes(2) == "//"
    ensures Slashes(4) == "////" && Slashes(7) == "///////"
  {
  }

  /** The documented example: "a///////b//c/d//e////" with "//" -> "/" gives "a/b/c/d/e/". */
  lemma CollapseSlashesExample()
    ensures RecursiveReplaced("a///////b//c/d//e////", "//", "/") == "a/b/c/d/e/"
  {
    var segs := [('a', 7), ('b', 2), ('c', 1), ('d', 2), ('e', 4)];
    ExampleText();
    RunsCollapse(segs, "/");
    assert Collapsed(segs, 1) == [('a', 1), ('b', 1), ('c', 1), ('d', 1), ('e', 1)];
    CollapsedText();
  }

  lemma CollapsedText()
    ensures Joined([('a', 1), ('b', 1), ('c', 1), ('d', 1), ('e', 1)]) == "a/b/c/d/e/"
  {
    SlashRuns();
    assert Joined([('e', 1)]) == "e/";
    assert Joined([('d', 1), ('e', 1)]) == "d/e/";
    assert Joined([('c', 1), ('d', 1), ('e', 1)]) == "c/d/e/";
    assert Joined([('b', 1), ('c', 1), ('d', 1), ('e', 1)]) == "b/c/d/e/";
  }

  /** The EmptyTo test: "a///////b//c/d//e////" with "//" -> "" gives "a/bc/de". */
  lemma EmptyReplacementExample()
    ensures RecursiveReplaced("a///////b//c/d//e////", "//", "") == "a/bc/de"
  {
    var segs := [('a', 7), ('b', 2), ('c', 1), ('d', 2), ('e', 4)];
    ExampleText();
    RunsCollapse(segs, "");
    assert Collapsed(segs, 0) == [('a', 1), ('b', 0), ('c', 1), ('d', 0), ('e', 0)];
    ParityText();
  }

  lemma ParityText()
    ensures Joined([('a', 1), ('b', 0), ('c', 1), ('d', 0), ('e', 0)]) == "a/bc/de"
  {
    SlashRuns();
    assert Joined([('e', 0)]) == "e";
    assert Joined([('d', 0), ('e', 0)]) == "de";
    assert Joined([('c', 1), ('d', 0), ('e', 0)]) == "c/de";
    assert Joined([('b', 0), ('c', 1), ('d', 0), ('e', 0)]) == "bc/de";
  }
}
