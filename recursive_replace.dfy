/**
 * `ies::RecursiveReplace(s, from, to)`: repeatedly find `from` in s, starting
 * at the position of the previous replacement, and replace it by `to`, until
 * no further occurrence is found. The in-place update of `s` is modelled as a
 * method returning the new string.
 */
module RecursiveReplace {
  import opened Wrappers

  /** The pattern occurs in s starting at position k. */
  predicate OccursAt(s: string, pattern: string, k: nat)
  {
    k + |pattern| <= |s| && s[k..k + |pattern|] == pattern
  }

  /** `std::string::find(pattern, pos)`: the first occurrence starting at or after pos. */
  function Find(s: string, pattern: string, pos: nat): (r: Option<nat>)
    ensures r.Some? ==> pos <= r.value && OccursAt(s, pattern, r.value)
    ensures r.Some? ==> forall k :: pos <= k < r.value ==> !OccursAt(s, pattern, k)
    ensures r.None? ==> forall k :: pos <= k ==> !OccursAt(s, pattern, k)
    decreases |s| - pos
  {
    if pos + |pattern| > |s| then None
    else if s[pos..pos + |pattern|] == pattern then Some(pos)
    else Find(s, pattern, pos + 1)
  }

  /** `std::string::replace(p, n, to)`: the n characters at p become `to`. */
  function Replace(s: string, p: nat, n: nat, to: string): (r: string)
    requires p + n <= |s|
    ensures |r| == |s| - n + |to|
    ensures r[..p] == s[..p] && r[p..p + |to|] == to && r[p + |to|..] == s[p + n..]
  {
    s[..p] + to + s[p + n..]
  }

  /** The pattern occurs somewhere in t. */
  predicate Contains(t: string, pattern: string)
  {
    exists k: nat :: k <= |t| && OccursAt(t, pattern, k)
  }

  /**
   * When the source's loop ends: `from` is empty, it does not occur at all,
   * or the replacement does not contain it (`NeverEnds` shows that
   * otherwise it goes on for ever).
   */
  predicate Ends(s: string, from: string, to: string)
  {
    from == [] || Find(s, from, 0).None? || !Contains(to, from)
  }

  /** The state the rewrite loop ends in: the text, the last search position, the number of replacements. */
  datatype Rewritten = Rewritten(text: string, last: nat, count: nat)

  /**
   * The length of the text after the next occurrence found from pos, plus
   * one; zero when there is none. The text after an occurrence is what no
   * replacement has touched yet.
   */
  function Unscanned(s: string, from: string, pos: nat): nat
  {
    match Find(s, from, pos)
    case None => 0
    case Some(p) => |s| - (p + |from|) + 1
  }

  /**
   * When `to` does not contain `from`, the occurrence found after a
   * replacement cannot lie inside the inserted `to`, so it reaches into the
   * untouched text and less of that text is left.
   */
  lemma UnscannedShrinks(s: string, from: string, to: string, pos: nat)
    requires from != [] && !Contains(to, from) && Find(s, from, pos).Some?
    ensures var p := Find(s, from, pos).value;
      Unscanned(Replace(s, p, |from|, to), from, p) < Unscanned(s, from, pos)
  {
    var p := Find(s, from, pos).value;
    var next := Replace(s, p, |from|, to);
    var f := Find(next, from, p);
    if f.Some? {
      var q := f.value;
      if q + |from| <= p + |to| {
        OccurrenceInsideReplacement(next, from, to, p, q);
        assert false;
      }
    }
  }

  /** An occurrence that lies within the inserted `to` is an occurrence in `to`. */
  lemma OccurrenceInsideReplacement(next: string, from: string, to: string, p: nat, q: nat)
    requires p <= q && q + |from| <= p + |to| <= |next| && next[p..p + |to|] == to
    requires OccursAt(next, from, q)
    ensures Contains(to, from)
  {
    var inTo, inNext := to[q - p..q - p + |from|], next[q..q + |from|];
    forall i | 0 <= i < |from|
      ensures inTo[i] == inNext[i]
    {
      assert inTo[i] == next[p..p + |to|][q - p + i];
    }
    assert inTo == inNext;
    assert OccursAt(to, from, q - p);
  }

  /**
   * The rewrite loop run from search position pos. The search resumes at the
   * replacement position, so the text before pos is never touched again, and
   * no occurrence of the pattern is left at or after the final position.
   */
  function RewriteFrom(s: string, from: string, to: string, pos: nat): (r: Rewritten)
    requires from != [] && (Find(s, from, pos).None? || !Contains(to, from))
    ensures pos <= r.last
    ensures forall k :: r.last <= k ==> !OccursAt(r.text, from, k)
    ensures |r.text| + r.count * (|from| - |to|) == |s|
    ensures pos <= |s| ==> pos <= |r.text| && r.text[..pos] == s[..pos]
    ensures r.count == 0 <==> Find(s, from, pos).None?
    decreases Unscanned(s, from, pos)
  {
    match Find(s, from, pos)
    case None => Rewritten(s, pos, 0)
    case Some(p) =>
      var next := Replace(s, p, |from|, to);
      UnscannedShrinks(s, from, to, pos);
      var rest := RewriteFrom(next, from, to, p);
      OneMoreReplacement(s, next, from, to, pos, p, rest);
      Rewritten(rest.text, rest.last, rest.count + 1)
  }

  /** The replacement at p followed by the rest of the loop keeps the contract of the whole loop. */
  lemma OneMoreReplacement(s: string, next: string, from: string, to: string, pos: nat, p: nat, rest: Rewritten)
    requires pos <= p && p + |from| <= |s| && next == Replace(s, p, |from|, to)
    requires p <= rest.last
    requires |rest.text| + rest.count * (|from| - |to|) == |next|
    requires p <= |next| ==> p <= |rest.text| && rest.text[..p] == next[..p]
    ensures pos <= rest.last
    ensures |rest.text| + (rest.count + 1) * (|from| - |to|) == |s|
    ensures pos <= |s| ==> pos <= |rest.text| && rest.text[..pos] == s[..pos]
  {
    assert next[..p] == s[..p];
    PrefixKept(s, next, rest.text, pos, p);
    MultiplySuccessor(rest.count, |from| - |to|);
  }

  /** Text kept up to p by two rewrites in turn is kept up to any earlier position. */
  lemma PrefixKept(s: string, next: string, last: string, pos: nat, p: nat)
    requires pos <= p <= |s| && p <= |next| && p <= |last|
    requires next[..p] == s[..p] && last[..p] == next[..p]
    ensures pos <= |last| && last[..pos] == s[..pos]
  {
    assert last[..pos] == last[..p][..pos];
    assert s[..pos] == s[..p][..pos];
  }

  lemma MultiplySuccessor(c: nat, d: int)
    ensures (c + 1) * d == c * d + d
  {
  }

  lemma MultiplyNonNegative(c: nat, d: nat)
    ensures c * d >= 0
  {
  }

  /** What `RecursiveReplace` leaves in s, for the inputs on which its loop ends. */
  function RecursiveReplaced(s: string, from: string, to: string): (r: string)
    requires Ends(s, from, to)
    ensures from == [] ==> r == s
    ensures from != [] && Find(s, from, 0).None? ==> r == s
    ensures |to| <= |from| ==> |r| <= |s|
  {
    if from == [] then s
    else
      var w := RewriteFrom(s, from, to, 0);
      if |to| <= |from| then MultiplyNonNegative(w.count, |from| - |to|); w.text else w.text
  }

  /**
   * The in-place rewrite loop, on the inputs on which it ends (`NeverEnds`
   * covers the others).
   */
  method RecursiveReplace(s: string, from: string, to: string) returns (r: string)
    requires Ends(s, from, to)
    ensures r == RecursiveReplaced(s, from, to)
  {
    r := s;
    if from != [] {
      var pos: nat := 0;
      var found := Find(r, from, pos);
      while found.Some?
        invariant found == Find(r, from, pos)
        invariant found.None? || !Contains(to, from)
        invariant RewriteFrom(r, from, to, pos).text == RewriteFrom(s, from, to, 0).text
        decreases Unscanned(r, from, pos)
      {
        UnscannedShrinks(r, from, to, pos);
        pos := found.value;
        r := Replace(r, pos, |from|, to);
        found := Find(r, from, pos);
      }
    }
  }

  /**
   * An empty `from` leaves s unchanged and an empty s stays empty; without
   * any occurrence nothing changes.
   */
  lemma NothingToReplace(s: string, from: string, to: string)
    requires Ends(s, from, to)
    ensures from == [] ==> RecursiveReplaced(s, from, to) == s
    ensures s == [] ==> RecursiveReplaced(s, from, to) == []
  {
  }

  /**
   * Why the source needs a shorter replacement: when `to` contains `from`,
   * every replacement leaves an occurrence at or after the position the
   * search resumes from, so `find` never fails and the loop never ends.
   */
  lemma ReplacementKeepsFinding(s: string, from: string, to: string, pos: nat, k: nat)
    requires OccursAt(to, from, k)
    requires Find(s, from, pos).Some?
    ensures var p := Find(s, from, pos).value;
      Find(Replace(s, p, |from|, to), from, p).Some?
  {
    var p := Find(s, from, pos).value;
    var next := Replace(s, p, |from|, to);
    assert next[p..p + |to|] == to;
    assert next[p + k..p + k + |from|] == to[k..k + |from|];
    assert OccursAt(next, from, p + k);
  }

  /** The text and search position after n turns of the source's loop from pos (fewer if it stops). */
  function Turns(s: string, from: string, to: string, pos: nat, n: nat): (string, nat)
    decreases n
  {
    if n == 0 then (s, pos)
    else
      match Find(s, from, pos)
      case None => (s, pos)
      case Some(p) => Turns(Replace(s, p, |from|, to), from, to, p, n - 1)
  }

  /**
   * When `to` contains `from` and `from` occurs, the loop finds an
   * occurrence after every number of turns: it never ends.
   */
  lemma NeverEnds(s: string, from: string, to: string, pos: nat, n: nat)
    requires Contains(to, from) && Find(s, from, pos).Some?
    ensures Find(Turns(s, from, to, pos, n).0, from, Turns(s, from, to, pos, n).1).Some?
  {
    var k: nat :| k <= |to| && OccursAt(to, from, k);
    KeepsFindingFor(s, from, to, pos, n, k);
  }

  /** `NeverEnds` for a fixed occurrence k of `from` in `to`, by induction on the turns. */
  lemma {:induction false} KeepsFindingFor(s: string, from: string, to: string, pos: nat, n: nat, k: nat)
    requires OccursAt(to, from, k) && Find(s, from, pos).Some?
    ensures var w := Turns(s, from, to, pos, n); Find(w.0, from, w.1).Some?
    decreases n
  {
    if n > 0 {
      var p := Find(s, from, pos).value;
      var next := Replace(s, p, |from|, to);
      assert Find(next, from, p).Some? by {
        ReplacementKeepsFinding(s, from, to, pos, k);
      }
      KeepsFindingFor(next, from, to, p, n - 1, k);
      FindingCarriesBack(s, from, to, pos, n);
    }
  }

  /** What the loop finds after the first turn and n - 1 more, it finds after n turns. */
  lemma FindingCarriesBack(s: string, from: string, to: string, pos: nat, n: nat)
    requires n > 0 && Find(s, from, pos).Some?
    requires var p := Find(s, from, pos).value;
      var w := Turns(Replace(s, p, |from|, to), from, to, p, n - 1); Find(w.0, from, w.1).Some?
    ensures var w := Turns(s, from, to, pos, n); Find(w.0, from, w.1).Some?
  {
    TurnsStep(s, from, to, pos, n);
  }

  /** One turn of the loop: replace at the occurrence found and search again from it. */
  lemma TurnsStep(s: string, from: string, to: string, pos: nat, n: nat)
    requires n > 0 && Find(s, from, pos).Some?
    ensures var p := Find(s, from, pos).value;
      Turns(s, from, to, pos, n) == Turns(Replace(s, p, |from|, to), from, to, p, n - 1)
  {
  }

  /**
   * What the header promises, "until no occurrence": the search starts over
   * from the beginning after each replacement. With a shorter replacement
   * the text shrinks each time, so this ends.
   */
  function ReplacedEverywhere(s: string, from: string, to: string): (r: string)
    requires from == [] || |to| < |from|
    ensures from != [] ==> !Contains(r, from)
    ensures from == [] || Find(s, from, 0).None? ==> r == s
    decreases |s|
  {
    if from == [] then s
    else
      match Find(s, from, 0)
      case None => s
      case Some(p) => ReplacedEverywhere(Replace(s, p, |from|, to), from, to)
  }

  /**
   * The result has no occurrence of `from` at or after the last position the
   * loop searched from, and the replacements account for the lost length.
   */
  lemma RecursiveReplaceProperties(s: string, from: string, to: string)
    requires from != [] && !Contains(to, from)
    ensures var w := RewriteFrom(s, from, to, 0);
      RecursiveReplaced(s, from, to) == w.text
      && (forall k :: w.last <= k ==> !OccursAt(w.text, from, k))
      && |s| - |w.text| == w.count * (|from| - |to|)
  {
  }

  /**
   * "Until no occurrence" does not hold for the source's loop: in "aabb",
   * replacing "ab" by "b" gives "abb", and the occurrence at 0 lies before
   * the position the search resumed from. Searching from the start again
   * gives "bb".
   */
  lemma OccurrenceLeftBehind()
    ensures RecursiveReplaced("aabb", "ab", "b") == "abb"
    ensures Contains("abb", "ab")
    ensures ReplacedEverywhere("aabb", "ab", "b") == "bb"
  {
    assert Find("aabb", "ab", 0) == Some(1) by {
      assert "aabb"[0..2][1] != "ab"[1];
      assert "aabb"[1..3] == "ab";
    }
    var next := Replace("aabb", 1, 2, "b");
    assert next == "abb";
    assert Find("abb", "ab", 1) == None by {
      assert "abb"[1..3][0] != "ab"[0];
    }
    assert "abb"[0..2] == "ab";
    assert OccursAt("abb", "ab", 0);
    assert Find("abb", "ab", 0) == Some(0);
    assert Replace("abb", 0, 2, "b") == "bb";
    assert Find("bb", "ab", 0) == None by {
      assert "bb"[0..2][0] != "ab"[0];
    }
  }

  /** A replacement as long as the pattern: backslashes become slashes. */
  lemma BackslashToSlashExample()
    ensures !Contains("/", "\\")
    ensures RecursiveReplaced("a\\b", "\\", "/") == "a/b"
  {
    assert !Contains("/", "\\") by {
      forall k: nat | k <= 1 ensures !OccursAt("/", "\\", k) {
        if k == 0 { assert "/"[0..1][0] != "\\"[0]; }
      }
    }
    assert Find("a\\b", "\\", 0) == Some(1) by {
      assert "a\\b"[0..1][0] != "\\"[0];
      assert "a\\b"[1..2] == "\\";
    }
    assert Replace("a\\b", 1, 1, "/") == "a/b";
    assert Find("a/b", "\\", 1) == None by {
      assert "a/b"[1..2][0] != "\\"[0];
      assert "a/b"[2..3][0] != "\\"[0];
    }
  }

  /**
   * `RecursiveReplace` with the non-terminating case refused instead of
   * looping: no result exactly when the replacement contains a pattern that
   * occurs, which is when `NeverEnds` shows the source's loop never stops.
   */
  function RecursiveReplaceChecked(s: string, from: string, to: string): (r: Option<string>)
    ensures r.None? <==> from != [] && Contains(to, from) && Find(s, from, 0).Some?
    ensures r.Some? ==> r.value == RecursiveReplaced(s, from, to)
    ensures r.Some? && |to| <= |from| ==> |r.value| <= |s|
  {
    if Ends(s, from, to) then Some(RecursiveReplaced(s, from, to)) else None
  }
}
