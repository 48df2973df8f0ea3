/**
 * `ies::IntegralRangeList`: non-overlapping ranges kept in a `std::map`
 * from begin to end. The map is modelled by its entries in key order.
 */
module IntegralRangeList {
  import opened Wrappers
  import opened IntegralRange
  import opened ReverseEqualRange

  datatype ListError =
    | NoRangeContainsValue  // GetRange of an uncovered value
    | NoRangeBeginsWith     // FindAdjacentRanges of a value no range begins with
    | StoredRangeIsEmpty    // an entry rebuilt under NotAllow was empty

  /** The begin values, which are the map's keys. */
  function Begins(entries: seq<Range>): (ks: seq<int>)
    ensures |ks| == |entries| && forall k :: 0 <= k < |entries| ==> ks[k] == entries[k].begin
  {
    seq(|entries|, i requires 0 <= i < |entries| => entries[i].begin)
  }

  /** Map keys are unique and iterated in ascending order. */
  predicate StrictlySorted(entries: seq<Range>)
  {
    forall i, j :: 0 <= i < j < |entries| ==> entries[i].begin < entries[j].begin
  }

  predicate NonEmpty(entries: seq<Range>)
  {
    forall i :: 0 <= i < |entries| ==> !IsEmpty(entries[i])
  }

  /** Each range ends at or before every later range begins. */
  predicate Separated(entries: seq<Range>)
  {
    forall i, j :: 0 <= i < j < |entries| ==> entries[i].end <= entries[j].begin
  }

  /** What the list promises: non-empty, non-overlapping ranges in begin order. */
  predicate WellFormed(entries: seq<Range>)
  {
    NonEmpty(entries) && Separated(entries)
  }

  lemma WellFormedIsSorted(entries: seq<Range>)
    requires WellFormed(entries)
    ensures StrictlySorted(entries) && Ascending(Begins(entries))
  {
    forall i, j | 0 <= i < j < |entries| ensures entries[i].begin < entries[j].begin {
      assert entries[i].begin < entries[i].end <= entries[j].begin;
    }
  }

  /** Some stored range holds v. */
  predicate Covers(entries: seq<Range>, v: int)
  {
    exists s :: s in entries && IsInRange(s, v)
  }

  /** No stored range overlaps r. */
  predicate SpaceFor(entries: seq<Range>, r: Range)
  {
    forall s :: s in entries ==> !Overlaps(r, s)
  }

  /** `mBeginToEndMap[r.begin] = r.end`: inserts at the key's position or replaces the entry with that key. */
  function InsertOrAssign(entries: seq<Range>, r: Range): (res: seq<Range>)
    requires StrictlySorted(entries)
    ensures StrictlySorted(res)
    ensures forall s :: s in res <==> s == r || (s in entries && s.begin != r.begin)
  {
    if entries == [] then [r]
    else if r.begin < entries[0].begin then [r] + entries
    else if r.begin == entries[0].begin then [r] + entries[1..]
    else
      var rest := InsertOrAssign(entries[1..], r);
      assert forall s :: s in rest ==> entries[0].begin < s.begin;
      [entries[0]] + rest
  }

  /** What the source's AddRange leaves: r stored whenever no stored range overlaps it, empty or not. */
  function StoreIfSpace(entries: seq<Range>, r: Range): (res: seq<Range>)
    requires StrictlySorted(entries)
    ensures SpaceFor(entries, r) ==> r in res
    ensures !SpaceFor(entries, r) ==> res == entries
  {
    if SpaceFor(entries, r) then InsertOrAssign(entries, r) else entries
  }

  /** The source's HasRange, which rebuilds the candidate entry under NotAllow. */
  function HasRangeAsWritten(entries: seq<Range>, v: int): (res: Result<bool, ListError>)
    requires StrictlySorted(entries)
    ensures WellFormed(entries) ==> res == Ok(Covers(entries, v))
  {
    var ub := UpperBound(Begins(entries), v);
    if ub == 0 then
      CoversBelowFirst(entries, v);
      Ok(false)
    else
      var candidate := entries[ub - 1];
      if Make(candidate.begin, candidate.end, NotAllow).Err? then Err(StoredRangeIsEmpty)
      else
        CandidateDecides(entries, v, ub);
        Ok(IsInRange(candidate, v))
  }

  /** With every begin above v, nothing covers v. */
  lemma CoversBelowFirst(entries: seq<Range>, v: int)
    requires forall k :: 0 <= k < |entries| ==> v < entries[k].begin
    ensures !Covers(entries, v)
  {
  }

  /** Only the last range beginning at or before v can hold it. */
  lemma CoversOnlyAtCandidate(entries: seq<Range>, v: int, ub: nat)
    requires WellFormed(entries) && 0 < ub <= |entries|
    requires forall k :: 0 <= k < ub ==> entries[k].begin <= v
    requires forall k :: ub <= k < |entries| ==> v < entries[k].begin
    ensures Covers(entries, v) <==> IsInRange(entries[ub - 1], v)
  {
    forall k | 0 <= k < |entries| && k != ub - 1
      ensures !IsInRange(entries[k], v)
    {
      if k < ub - 1 {
        assert entries[k].end <= entries[ub - 1].begin;
      }
    }
  }

  lemma CandidateDecides(entries: seq<Range>, v: int, ub: nat)
    requires 0 < ub <= |entries|
    requires forall k :: 0 <= k < ub ==> entries[k].begin <= v
    requires forall k :: ub <= k < |entries| ==> v < entries[k].begin
    ensures WellFormed(entries) ==> (Covers(entries, v) <==> IsInRange(entries[ub - 1], v))
  {
    if WellFormed(entries) {
      CoversOnlyAtCandidate(entries, v, ub);
    }
  }

  /**
   * Adding the empty range [2, 2) to {[2, 5)} passes the overlap test,
   * replaces [2, 5), uncovers 3, and leaves an entry that HasRange cannot rebuild.
   */
  lemma AddRangeAsWrittenLosesCoverage()
    ensures var before := [Bounds(2, 5)];
      var after := StoreIfSpace(before, Bounds(2, 2));
      StrictlySorted(after)
      && after == [Bounds(2, 2)]
      && Covers(before, 3) && !Covers(after, 3)
      && HasRangeAsWritten(before, 3) == Ok(true)
      && HasRangeAsWritten(after, 3) == Err(StoredRangeIsEmpty)
  {
    var before: seq<Range> := [Bounds(2, 5)];
    assert SpaceFor(before, Bounds(2, 2));
    var after := StoreIfSpace(before, Bounds(2, 2));
    assert after == [Bounds(2, 2)];
    assert IsInRange(before[0], 3);
    assert UpperBound(Begins(after), 3) == 1;
  }

  /** Inserting a non-empty range that overlaps nothing keeps the list well formed. */
  lemma {:induction false} InsertKeepsWellFormed(entries: seq<Range>, r: Range)
    requires WellFormed(entries) && !IsEmpty(r) && SpaceFor(entries, r)
    ensures StrictlySorted(entries)
    ensures WellFormed(InsertOrAssign(entries, r))
  {
    WellFormedIsSorted(entries);
    if entries == [] {
    } else if r.begin < entries[0].begin {
      forall j | 0 <= j < |entries| ensures r.end <= entries[j].begin {
        assert !Overlaps(r, entries[j]);
      }
      PrependSeparated(r, entries);
    } else if r.begin == entries[0].begin {
      assert false;
    } else {
      var first, tail := entries[0], entries[1..];
      TailOfWellFormed(entries, r);
      InsertKeepsWellFormed(tail, r);
      var rest := InsertOrAssign(tail, r);
      assert !Overlaps(r, first);
      forall j | 0 <= j < |rest| ensures first.end <= rest[j].begin {
        assert rest[j] in rest;
      }
      PrependSeparated(first, rest);
    }
  }

  /** Past the first entry: still well formed, all after the first's end, and room for r. */
  lemma TailOfWellFormed(entries: seq<Range>, r: Range)
    requires WellFormed(entries) && entries != [] && SpaceFor(entries, r)
    ensures WellFormed(entries[1..]) && SpaceFor(entries[1..], r)
    ensures forall s :: s in entries[1..] ==> entries[0].end <= s.begin
  {
    var tail := entries[1..];
    forall s | s in tail ensures entries[0].end <= s.begin && s in entries {
      var k :| 0 <= k < |tail| && tail[k] == s;
      assert entries[k + 1] == s;
    }
  }

  /** A non-empty range ending before every begin of a well-formed list can go in front. */
  lemma PrependSeparated(first: Range, rest: seq<Range>)
    requires WellFormed(rest) && !IsEmpty(first)
    requires forall j :: 0 <= j < |rest| ==> first.end <= rest[j].begin
    ensures WellFormed([first] + rest)
  {
    var all := [first] + rest;
    forall i, j | 0 <= i < j < |all| ensures all[i].end <= all[j].begin {
      assert all[j] == rest[j - 1];
      if i > 0 {
        assert all[i] == rest[i - 1];
      }
    }
  }

  /** Inserting a range whose begin is not a key adds exactly that range. */
  lemma InsertAddsOne(entries: seq<Range>, r: Range)
    requires WellFormed(entries) && !IsEmpty(r) && SpaceFor(entries, r)
    ensures StrictlySorted(entries)
    ensures forall s :: s in InsertOrAssign(entries, r) <==> s == r || s in entries
  {
    WellFormedIsSorted(entries);
    forall s | s in entries ensures s.begin != r.begin {
      assert !Overlaps(r, s);
    }
  }

  /** The stored ranges that overlap r, in order (the list FindOverlappingRanges builds). */
  function Overlapping(entries: seq<Range>, r: Range): seq<Range>
  {
    if entries == [] then []
    else
      var last := entries[|entries| - 1];
      Overlapping(entries[..|entries| - 1], r) + (if Overlaps(r, last) then [last] else [])
  }

  lemma {:induction false} OverlappingConcat(a: seq<Range>, b: seq<Range>, r: Range)
    ensures Overlapping(a + b, r) == Overlapping(a, r) + Overlapping(b, r)
    decreases |b|
  {
    if b == [] {
      assert a + b == a;
    } else {
      var b' := b[..|b| - 1];
      assert (a + b)[..|a + b| - 1] == a + b';
      OverlappingConcat(a, b', r);
    }
  }

  lemma {:induction false} OverlappingNone(a: seq<Range>, r: Range)
    requires forall k :: 0 <= k < |a| ==> !Overlaps(r, a[k])
    ensures Overlapping(a, r) == []
  {
    if a != [] {
      OverlappingNone(a[..|a| - 1], r);
    }
  }

  /** The filter keeps exactly the overlapping entries and keeps the list well formed. */
  lemma {:induction false} OverlappingMembers(a: seq<Range>, r: Range)
    requires WellFormed(a)
    ensures forall s :: s in Overlapping(a, r) <==> s in a && Overlaps(r, s)
    ensures WellFormed(Overlapping(a, r))
  {
    if a != [] {
      var init, last := a[..|a| - 1], a[|a| - 1];
      OverlappingMembers(init, r);
      var f := Overlapping(init, r);
      InitBeforeLast(a);
      forall j | 0 <= j < |f| ensures f[j].end <= last.begin {
        assert f[j] in f;
      }
    }
  }

  /** In a well-formed list, every entry but the last is one of the others and ends before the last begins. */
  lemma InitBeforeLast(a: seq<Range>)
    requires WellFormed(a) && a != []
    ensures WellFormed(a[..|a| - 1])
    ensures forall s :: s in a[..|a| - 1] ==> s.end <= a[|a| - 1].begin
    ensures forall s :: s in a <==> s in a[..|a| - 1] || s == a[|a| - 1]
  {
    var init := a[..|a| - 1];
    assert a == init + [a[|a| - 1]];
    forall s | s in init ensures s.end <= a[|a| - 1].begin {
      var k :| 0 <= k < |init| && init[k] == s;
      assert a[k] == s;
    }
  }

  /** Filtering a window equals filtering the whole when nothing outside the window overlaps. */
  lemma OverlappingWindow(a: seq<Range>, lo: nat, hi: nat, r: Range)
    requires lo <= hi <= |a|
    requires forall k :: 0 <= k < lo ==> !Overlaps(r, a[k])
    requires forall k :: hi <= k < |a| ==> !Overlaps(r, a[k])
    ensures Overlapping(a[lo..hi], r) == Overlapping(a, r)
  {
    var pre, mid, post := a[..lo], a[lo..hi], a[hi..];
    assert a == (pre + mid) + post;
    OverlappingConcat(pre + mid, post, r);
    OverlappingConcat(pre, mid, r);
    OverlappingNone(pre, r);
    OverlappingNone(post, r);
  }

  /** The scan window of FindOverlappingRanges misses no overlapping range. */
  lemma OutsideWindowDisjoint(entries: seq<Range>, r: Range, start: nat, stop: nat)
    requires WellFormed(entries) && start <= stop <= |entries|
    requires start == 0 || (start < |entries| && entries[start].begin <= r.begin)
    requires forall k :: stop <= k < |entries| ==> r.end <= entries[k].begin
    ensures Overlapping(entries[start..stop], r) == Overlapping(entries, r)
  {
    forall k | 0 <= k < start ensures !Overlaps(r, entries[k]) {
      assert entries[k].end <= entries[start].begin;
    }
    OverlappingWindow(entries, start, stop, r);
  }

  /**
   * Where FindOverlappingRanges scans: from the entry before `upper_bound(r.begin)`
   * (or the first entry) up to `lower_bound(r.end)`.
   */
  function ScanWindow(entries: seq<Range>, r: Range): (w: (nat, nat))
    requires WellFormed(entries)
    ensures w.0 <= w.1 <= |entries|
    ensures w.0 == 0 || (w.0 < |entries| && entries[w.0].begin <= r.begin)
    ensures forall k :: w.1 <= k < |entries| ==> r.end <= entries[k].begin
  {
    WellFormedIsSorted(entries);
    var keys := Begins(entries);
    var upper := UpperBound(keys, r.begin);
    var start := if upper > 0 then upper - 1 else upper;
    var stop := LowerBound(keys, r.end);
    WindowOrdered(keys, r.begin, r.end);
    (start, stop)
  }

  lemma ScanCoversAll(entries: seq<Range>, r: Range, start: nat, stop: nat)
    requires WellFormed(entries) && start <= stop <= |entries|
    requires start == 0 || (start < |entries| && entries[start].begin <= r.begin)
    requires forall k :: stop <= k < |entries| ==> r.end <= entries[k].begin
    ensures Overlapping(entries[start..stop], r) == Overlapping(entries, r)
    ensures WellFormed(Overlapping(entries, r))
    ensures forall s :: s in Overlapping(entries, r) <==> s in entries && Overlaps(r, s)
  {
    OutsideWindowDisjoint(entries, r, start, stop);
    OverlappingMembers(entries, r);
  }

  /** Widening the scanned window by one entry adds it when it overlaps. */
  lemma OverlappingStep(entries: seq<Range>, start: nat, i: nat, r: Range)
    requires start <= i < |entries|
    ensures Overlapping(entries[start..i + 1], r)
      == Overlapping(entries[start..i], r) + (if Overlaps(r, entries[i]) then [entries[i]] else [])
  {
    var window := entries[start..i + 1];
    assert window[..|window| - 1] == entries[start..i];
  }

  /** `find`: the index of the entry with key b, or |entries| (end()) when there is none. */
  function Find(entries: seq<Range>, b: int): (i: nat)
    ensures i <= |entries|
    ensures i < |entries| ==> entries[i].begin == b
    ensures i == |entries| ==> forall k :: 0 <= k < |entries| ==> entries[k].begin != b
  {
    if entries == [] then 0
    else if entries[0].begin == b then 0
    else 1 + Find(entries[1..], b)
  }

  /** The scan starts no later than it stops. */
  lemma WindowOrdered(keys: seq<int>, b: int, e: int)
    requires b <= e
    requires forall i, j :: 0 <= i < j < |keys| ==> keys[i] < keys[j]
    ensures Ascending(keys)
    ensures var start := UpperBound(keys, b); var stop := LowerBound(keys, e);
      (if start > 0 then start - 1 else start) <= stop
  {
    var stop := LowerBound(keys, e);
    if stop + 1 < |keys| {
      assert keys[stop] < keys[stop + 1];
    }
  }

  /** A covered value has a range beginning at or before it. */
  lemma CoveredHasCandidate(entries: seq<Range>, v: int)
    requires StrictlySorted(entries) && Covers(entries, v)
    ensures ReverseLowerBound(Begins(entries), v) >= 0
  {
    var s :| s in entries && IsInRange(s, v);
    var k :| 0 <= k < |entries| && entries[k] == s;
    assert Begins(entries)[k] <= v;
  }

  class RangeList {
    /** `mBeginToEndMap`, in key order. */
    var entries: seq<Range>

    ghost predicate Valid()
      reads this
    {
      WellFormed(entries)
    }

    constructor ()
      ensures Valid() && entries == []
    {
      entries := [];
    }

    /**
     * Stores r when it is non-empty and no stored range overlaps it;
     * otherwise the list is unchanged.
     */
    method AddRange(r: Range)
      requires Valid()
      modifies this
      ensures Valid()
      ensures var accepted := !IsEmpty(r) && SpaceFor(old(entries), r);
        (accepted ==> forall s :: s in entries <==> s == r || s in old(entries))
        && (!accepted ==> entries == old(entries))
    {
      var space := HasSpace(r);
      if space && !IsEmpty(r) {
        InsertKeepsWellFormed(entries, r);
        InsertAddsOne(entries, r);
        entries := InsertOrAssign(entries, r);
      }
    }

    /**
     * The source's AddRange: r is stored whenever no stored range overlaps
     * it, so an empty range that overlaps nothing is stored too and the list
     * stops being well formed.
     */
    method AddRangeAsWritten(r: Range)
      requires Valid()
      modifies this
      ensures StrictlySorted(old(entries)) && entries == StoreIfSpace(old(entries), r)
      ensures !IsEmpty(r) ==> Valid()
      ensures IsEmpty(r) && SpaceFor(old(entries), r) ==> !Valid()
    {
      var space := HasSpace(r);
      WellFormedIsSorted(entries);
      if space {
        if !IsEmpty(r) {
          InsertKeepsWellFormed(entries, r);
        }
        entries := InsertOrAssign(entries, r);
        var k :| 0 <= k < |entries| && entries[k] == r;
      }
    }

    /** No stored range overlaps r. */
    method HasSpace(r: Range) returns (space: bool)
      requires Valid()
      ensures space <==> SpaceFor(entries, r)
    {
      var found := FindOverlappingRanges(r);
      space := |found| == 0;
      if !space {
        assert found[0] in found;
      }
    }

    /** Some stored range holds v; a value equal to an end is not covered. */
    function HasRange(v: int): (covered: bool)
      reads this
      requires Valid()
      ensures covered <==> Covers(entries, v)
    {
      WellFormedIsSorted(entries);
      var ub := UpperBound(Begins(entries), v);
      if ub == 0 then
        CoversBelowFirst(entries, v);
        false
      else
        CoversOnlyAtCandidate(entries, v, ub);
        IsInRange(entries[ub - 1], v)
    }

    /** The stored range holding v, found as the last range beginning at or before v. */
    function GetRange(v: int): (res: Result<Range, ListError>)
      reads this
      requires Valid()
      ensures res.Err? <==> !Covers(entries, v)
      ensures res.Ok? ==> res.value in entries && IsInRange(res.value, v)
    {
      if !HasRange(v) then Err(NoRangeContainsValue)
      else
        WellFormedIsSorted(entries);
        var p := ReverseLowerBound(Begins(entries), v);
        // The source's "logic error" throw at crend cannot happen: HasRange(v) found a range at or before v.
        CoveredHasCandidate(entries, v);
        CoversOnlyAtCandidate(entries, v, p + 1);
        Ok(entries[p])
    }

    /** The stored ranges in ascending begin order. */
    function GetRanges(): (ranges: seq<Range>)
      reads this
      requires Valid()
      ensures StrictlySorted(ranges) && Separated(ranges)
      ensures forall s :: s in ranges <==> s in entries
    {
      WellFormedIsSorted(entries);
      entries
    }

    /**
     * The stored ranges that overlap r, in order. The scan starts at the last
     * range beginning at or before r's begin and stops at the first range
     * beginning at or after r's end.
     */
    method FindOverlappingRanges(r: Range) returns (found: seq<Range>)
      requires Valid()
      ensures found == Overlapping(entries, r)
      ensures WellFormed(found)
      ensures forall s :: s in found <==> s in entries && Overlaps(r, s)
    {
      var window := ScanWindow(entries, r);
      found := ScanOverlapping(r, window.0, window.1);
      ScanCoversAll(entries, r, window.0, window.1);
    }

    /** The loop of FindOverlappingRanges: from start, until stop or the last entry. */
    method ScanOverlapping(r: Range, start: nat, stop: nat) returns (found: seq<Range>)
      requires start <= stop <= |entries|
      ensures found == Overlapping(entries[start..stop], r)
    {
      found := [];
      var i := start;
      while i != stop && i != |entries|
        invariant start <= i <= stop
        invariant found == Overlapping(entries[start..i], r)
      {
        OverlappingStep(entries, start, i, r);
        if Overlaps(r, entries[i]) {
          found := found + [entries[i]];
        }
        i := i + 1;
      }
    }

    /**
     * The neighbours of the range beginning at b that touch it: the Begin
     * entry is the previous range when it ends at b, the End entry is the next
     * range when it begins where the current one ends.
     */
    function FindAdjacentRanges(b: int): (res: Result<map<RangeSide, Range>, ListError>)
      reads this
      requires Valid()
      ensures var i := Find(entries, b);
        && (res.Err? <==> i == |entries|)
        && (res.Ok? ==> res.value.Keys <= {Begin, End})
        && (res.Ok? ==> (Begin in res.value <==> i > 0 && entries[i - 1].end == b))
        && (res.Ok? && Begin in res.value ==> res.value[Begin] == entries[i - 1])
        && (res.Ok? ==> (End in res.value <==> i + 1 < |entries| && entries[i + 1].begin == entries[i].end))
        && (res.Ok? && End in res.value ==> res.value[End] == entries[i + 1])
    {
      var i := Find(entries, b);
      if i == |entries| then Err(NoRangeBeginsWith)
      else
        var current := entries[i];
        var withBegin: map<RangeSide, Range> :=
          if i > 0 && entries[i - 1].end == current.begin then map[Begin := entries[i - 1]] else map[];
        var adjacent :=
          if i + 1 < |entries| && entries[i + 1].begin == current.end then withBegin[End := entries[i + 1]] else withBegin;
        Ok(adjacent)
    }
  }
}
