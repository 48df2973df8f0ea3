/**
 * The order in which `std::set<std::string>` keeps its names: lexicographic
 * comparison of character codes, a proper prefix before its extensions.
 */
module StringOrder {
  /** `a <= b` on `std::string`. */
  predicate LessEq(a: string, b: string)
    decreases |a|
  {
    |a| == 0 || (|b| > 0 && (a[0] < b[0] || (a[0] == b[0] && LessEq(a[1..], b[1..]))))
  }

  lemma {:induction false} LessEqReflexive(a: string)
    ensures LessEq(a, a)
    decreases |a|
  {
    if |a| > 0 {
      LessEqReflexive(a[1..]);
    }
  }

  lemma {:induction false} LessEqTotal(a: string, b: string)
    ensures LessEq(a, b) || LessEq(b, a)
    decreases |a|
  {
    if |a| > 0 && |b| > 0 && a[0] == b[0] {
      LessEqTotal(a[1..], b[1..]);
    }
  }

  lemma {:induction false} LessEqAntisymmetric(a: string, b: string)
    requires LessEq(a, b) && LessEq(b, a)
    ensures a == b
    decreases |a|
  {
    if |a| > 0 {
      LessEqAntisymmetric(a[1..], b[1..]);
      assert a == [a[0]] + a[1..];
      assert b == [b[0]] + b[1..];
    }
  }

  lemma {:induction false} LessEqTransitive(a: string, b: string, c: string)
    requires LessEq(a, b) && LessEq(b, c)
    ensures LessEq(a, c)
    decreases |a|
  {
    if |a| > 0 && a[0] == b[0] && b[0] == c[0] {
      LessEqTransitive(a[1..], b[1..], c[1..]);
    }
  }

  /** m is the first element of s in set order. */
  predicate IsLeast(m: string, s: set<string>)
  {
    m in s && forall x :: x in s ==> LessEq(m, x)
  }

  lemma {:induction false} LeastExists(s: set<string>)
    requires s != {}
    ensures exists m :: IsLeast(m, s)
    decreases |s|
  {
    var x :| x in s;
    LessEqReflexive(x);
    if s == {x} {
      assert IsLeast(x, s);
    } else {
      LeastExists(s - {x});
      var m :| IsLeast(m, s - {x});
      LessEqTotal(x, m);
      if LessEq(x, m) {
        forall y | y in s
          ensures LessEq(x, y)
        {
          if y != x {
            LessEqTransitive(x, m, y);
          }
        }
        assert IsLeast(x, s);
      } else {
        assert IsLeast(m, s);
      }
    }
  }

  ghost function Least(s: set<string>): (m: string)
    requires s != {}
    ensures IsLeast(m, s)
  {
    LeastExists(s);
    var m :| IsLeast(m, s);
    m
  }

  lemma LeastUnique(m: string, s: set<string>)
    requires IsLeast(m, s)
    ensures m == Least(s)
  {
    LessEqAntisymmetric(m, Least(s));
  }

  /** The elements of s in ascending order: how `std::set<std::string>` iterates. */
  ghost function Sorted(s: set<string>): seq<string>
    decreases |s|
  {
    if s == {} then [] else var m := Least(s); [m] + Sorted(s - {m})
  }

  /** Strictly increasing. */
  predicate Ascending(q: seq<string>)
  {
    forall i, j :: 0 <= i < j < |q| ==> LessEq(q[i], q[j]) && q[i] != q[j]
  }

  /** Taking the least element first is one step of the enumeration. */
  lemma SortedStep(m: string, s: set<string>)
    requires IsLeast(m, s)
    ensures Sorted(s) == [m] + Sorted(s - {m})
  {
    LeastUnique(m, s);
  }

  /** The enumeration lists every element of s once, in ascending order. */
  lemma {:induction false} SortedContents(s: set<string>)
    ensures |Sorted(s)| == |s|
    ensures forall x :: x in Sorted(s) <==> x in s
    ensures Ascending(Sorted(s))
    decreases |s|
  {
    if s != {} {
      var m := Least(s);
      var q, rest := Sorted(s), Sorted(s - {m});
      SortedContents(s - {m});
      assert q == [m] + rest;
      forall i, j | 0 <= i < j < |q|
        ensures LessEq(q[i], q[j]) && q[i] != q[j]
      {
        if i > 0 {
          assert q[i] == rest[i - 1] && q[j] == rest[j - 1];
        } else {
          assert q[j] == rest[j - 1];
          assert q[j] in rest;
        }
      }
    }
  }

  /** It is the only ascending enumeration of s. */
  lemma {:induction false} SortedUnique(q: seq<string>, s: set<string>)
    requires Ascending(q)
    requires forall x :: x in q <==> x in s
    ensures q == Sorted(s)
    decreases |q|
  {
    if q == [] {
      assert s == {};
    } else {
      var m := q[0];
      forall x | x in s
        ensures LessEq(m, x)
      {
        var j :| 0 <= j < |q| && q[j] == x;
        if j == 0 {
          LessEqReflexive(m);
        }
      }
      assert IsLeast(m, s);
      SortedStep(m, s);
      var rest := q[1..];
      forall x
        ensures x in rest <==> x in s - {m}
      {
        if x in rest {
          var j :| 0 <= j < |rest| && rest[j] == x;
          assert q[j + 1] == x;
        }
      }
      assert Ascending(rest) by {
        forall i, j | 0 <= i < j < |rest|
          ensures LessEq(rest[i], rest[j]) && rest[i] != rest[j]
        {
          assert rest[i] == q[i + 1] && rest[j] == q[j + 1];
        }
      }
      SortedUnique(rest, s - {m});
      assert q == [m] + rest;
    }
  }
}
