/**
 * `ies::FormatString` (FormatString.hxx): a container printed as its
 * name, then its elements in iteration order between braces, separated by
 * ", ". Strings are quoted, integers go through `std::to_string`, and any
 * other element type through a caller-supplied formatter. A container is
 * given by its kind and its elements in iteration order.
 */
module FormatString {
  import opened NumberText
  import opened SplitString

  /** The containers `DetectContainerName` has an overload for; anything else is `Unknown`. */
  datatype Container = StdArray(size: nat) | StdDeque | StdForwardList | StdList | StdSet | StdMap | StdVector | Unknown

  /** `Detail::DetectContainerName`. */
  function DetectContainerName(c: Container): (name: string)
    ensures c.StdArray? ==> name == "std::array<" + NatToString(c.size) + ">"
    ensures c.Unknown? ==> name == "Unknown Container"
  {
    match c
    case StdArray(n) => "std::array<" + NatToString(n) + ">"
    case StdDeque => "std::deque"
    case StdForwardList => "std::forward_list"
    case StdList => "std::list"
    case StdSet => "std::set"
    case StdMap => "std::map"
    case StdVector => "std::vector"
    case Unknown => "Unknown Container"
  }

  /** The names tell the containers apart, arrays of different sizes included. */
  lemma ContainerNamesDistinct(a: Container, b: Container)
    ensures DetectContainerName(a) == DetectContainerName(b) ==> a == b
  {
    if DetectContainerName(a) == DetectContainerName(b) {
      var name := DetectContainerName(a);
      if a.StdArray? || b.StdArray? {
        assert name[5] == 'a';
        assert a.StdArray? && b.StdArray?;
        var da, db := NatToString(a.size), NatToString(b.size);
        assert da == name[11..|name| - 1];
        assert db == name[11..|name| - 1];
        NatToDigitsRoundTrip(a.size, 10);
        NatToDigitsRoundTrip(b.size, 10);
      } else if a.Unknown? || b.Unknown? {
        assert name[0] == 'U';
      } else {
        assert name[5] == DetectContainerName(b)[5];
      }
    }
  }

  /** pieces[0] + ", " + pieces[1] + ", " + ... */
  function JoinComma(pieces: seq<string>): string
  {
    if |pieces| == 0 then ""
    else if |pieces| == 1 then pieces[0]
    else pieces[0] + ", " + JoinComma(pieces[1..])
  }

  /** What every overload returns: the name, "{", the joined pieces, "}". */
  function Braced(name: string, pieces: seq<string>): string
  {
    name + "{" + JoinComma(pieces) + "}"
  }

  /** f applied to each element, in order. */
  function MapSeq<T>(f: T -> string, elements: seq<T>): (r: seq<string>)
    ensures |r| == |elements|
    ensures forall i :: 0 <= i < |elements| ==> r[i] == f(elements[i])
  {
    if |elements| == 0 then [] else MapSeq(f, elements[..|elements| - 1]) + [f(elements[|elements| - 1])]
  }

  /** `"\"" + e + "\""`. */
  function Quote(e: string): string
  {
    "\"" + e + "\""
  }

  /** Appending one piece appends ", " and the piece, except to no pieces. */
  lemma {:induction false} JoinCommaSnoc(pieces: seq<string>, x: string)
    ensures JoinComma(pieces + [x]) == if |pieces| == 0 then x else JoinComma(pieces) + ", " + x
    decreases |pieces|
  {
    if |pieces| >= 2 {
      assert (pieces + [x])[1..] == pieces[1..] + [x];
      JoinCommaSnoc(pieces[1..], x);
    } else if |pieces| == 1 {
      assert (pieces + [x])[1..] == [x];
    }
  }

  /** The loop body of every overload: the separator unless first, then the piece. */
  lemma FormatStep<T>(f: T -> string, elements: seq<T>, i: nat)
    requires i < |elements|
    ensures JoinComma(MapSeq(f, elements[..i + 1]))
      == (if i == 0 then "" else JoinComma(MapSeq(f, elements[..i])) + ", ") + f(elements[i])
  {
    assert elements[..i + 1][..i] == elements[..i];
    JoinCommaSnoc(MapSeq(f, elements[..i]), f(elements[i]));
  }

  /** [Non-simple Value Version] `FormatString(container, f)`. */
  method FormatWith<T>(c: Container, elements: seq<T>, f: T -> string) returns (s: string)
    ensures s == Braced(DetectContainerName(c), MapSeq(f, elements))
  {
    var head := DetectContainerName(c) + "{";
    s := head;
    var isFirst := true;
    var i := 0;
    while i < |elements|
      invariant 0 <= i <= |elements|
      invariant isFirst <==> i == 0
      invariant s == head + JoinComma(MapSeq(f, elements[..i]))
    {
      s := AppendElement(head, s, isFirst, f, elements, i);
      isFirst := false;
      i := i + 1;
    }
    assert elements[..i] == elements;
    s := s + "}";
  }

  /** One turn of the loop: ", " unless it is the first element, then the element's text. */
  method AppendElement<T>(head: string, s: string, isFirst: bool, f: T -> string, elements: seq<T>, i: nat)
    returns (s': string)
    requires i < |elements| && (isFirst <==> i == 0)
    requires s == head + JoinComma(MapSeq(f, elements[..i]))
    ensures s' == head + JoinComma(MapSeq(f, elements[..i + 1]))
  {
    FormatStep(f, elements, i);
    var joined := JoinComma(MapSeq(f, elements[..i]));
    s' := s;
    if !isFirst {
      s' := s' + ", ";
    }
    s' := s' + f(elements[i]);
    if isFirst {
      assert s' == head + "" + f(elements[i]);
    } else {
      assert s' == head + (joined + ", " + f(elements[i]));
    }
  }

  /** [String Version] `FormatString(container)` of string elements: each one quoted. */
  method FormatStrings(c: Container, elements: seq<string>) returns (s: string)
    ensures s == Braced(DetectContainerName(c), MapSeq(Quote, elements))
  {
    s := FormatWith(c, elements, Quote);
  }

  /** [Simple Value Version] `FormatString(container)` of integers: each one through `std::to_string`. */
  method FormatValues(c: Container, elements: seq<int>) returns (s: string)
    ensures s == Braced(DetectContainerName(c), MapSeq(IntToString, elements))
  {
    s := FormatWith(c, elements, IntToString);
  }

  /** Counting characters: ", " between pieces, "{" and "}" around them. */
  lemma {:induction false} JoinCommaLength(pieces: seq<string>)
    ensures |pieces| > 0 ==> |JoinComma(pieces)| == SumLengths(pieces) + 2 * (|pieces| - 1)
    ensures |pieces| == 0 ==> JoinComma(pieces) == ""
    decreases |pieces|
  {
    if |pieces| >= 2 {
      JoinCommaLength(pieces[1..]);
    }
  }

  function SumLengths(pieces: seq<string>): nat
  {
    if |pieces| == 0 then 0 else |pieces[0]| + SumLengths(pieces[1..])
  }

  /** The output starts with the name and "{", ends with "}", and is "name{}" for no elements. */
  lemma BracedShape(name: string, pieces: seq<string>)
    ensures Braced(name, pieces)[..|name| + 1] == name + "{"
    ensures Braced(name, pieces)[|Braced(name, pieces)| - 1] == '}'
    ensures Braced(name, pieces)[|name| + 1..|Braced(name, pieces)| - 1] == JoinComma(pieces)
    ensures |pieces| == 0 ==> Braced(name, pieces) == name + "{}"
    ensures |pieces| > 0 ==> |Braced(name, pieces)| == |name| + SumLengths(pieces) + 2 * |pieces|
  {
    JoinCommaLength(pieces);
  }

  // Reading the elements back.

  /** The characters ", " splits on. */
  const CommaSpace: set<char> := {',', ' '}

  predicate Splittable(pieces: seq<string>)
  {
    forall i :: 0 <= i < |pieces| ==> |pieces[i]| > 0 && NoSeparatorIn(CommaSpace, pieces[i])
  }

  /** Splitting the joined pieces on ", " gives the pieces back. */
  lemma {:induction false} RunsOfJoinComma(pieces: seq<string>)
    requires Splittable(pieces)
    ensures Runs(CommaSpace, JoinComma(pieces)) == pieces
    decreases |pieces|
  {
    if |pieces| == 1 {
      FirstRun(CommaSpace, pieces[0], "");
      assert pieces[0] + "" == pieces[0];
    } else if |pieces| >= 2 {
      var p, rest := pieces[0], JoinComma(pieces[1..]);
      assert JoinComma(pieces) == p + (", " + rest);
      FirstRun(CommaSpace, p, ", " + rest);
      assert JoinComma(pieces) == (p + ", ") + rest;
      RunsSkipSeparators(CommaSpace, JoinComma(pieces), |p|, |p| + 2);
      RunsFromShift(CommaSpace, p + ", ", rest, 0);
      RunsOfJoinComma(pieces[1..]);
      assert [p] + pieces[1..] == pieces;
    }
  }

  /** What `ParseInt` reads: an optional minus sign, then decimal digits. */
  predicate IsIntText(s: string)
  {
    |s| >= 1 && (s[0] == '-' ==> IsDigitString(s[1..], 10)) && (s[0] != '-' ==> IsDigitString(s, 10))
  }

  lemma DigitStringHasNoSeparator(s: string)
    requires IsDigitString(s, 10)
    ensures NoSeparatorIn(CommaSpace, s)
  {
    forall c | c in s
      ensures c !in CommaSpace
    {
      var i :| 0 <= i < |s| && s[i] == c;
      assert DigitValue(s[i], 10) < 10;
    }
  }

  lemma IntTextSplittable(i: int)
    ensures |IntToString(i)| > 0 && NoSeparatorIn(CommaSpace, IntToString(i))
  {
    IntToStringRoundTrip(i);
    var s := IntToString(i);
    if s[0] == '-' {
      DigitStringHasNoSeparator(s[1..]);
      assert s == [s[0]] + s[1..];
    } else {
      DigitStringHasNoSeparator(s);
    }
  }

  /**
   * The integer overload can be read back: between the braces, splitting on
   * ", " gives the element texts, and each one parses to its element.
   */
  lemma ValuesRoundTrip(name: string, elements: seq<int>)
    ensures Runs(CommaSpace, Braced(name, MapSeq(IntToString, elements))[|name| + 1..|Braced(name, MapSeq(IntToString, elements))| - 1])
      == MapSeq(IntToString, elements)
    ensures forall i :: 0 <= i < |elements| ==>
      IsIntText(MapSeq(IntToString, elements)[i]) && ParseInt(MapSeq(IntToString, elements)[i]) == elements[i]
  {
    var pieces := MapSeq(IntToString, elements);
    forall i | 0 <= i < |pieces|
      ensures |pieces[i]| > 0 && NoSeparatorIn(CommaSpace, pieces[i])
    {
      IntTextSplittable(elements[i]);
    }
    BracedShape(name, pieces);
    RunsOfJoinComma(pieces);
    forall i | 0 <= i < |elements|
      ensures IsIntText(pieces[i]) && ParseInt(pieces[i]) == elements[i]
    {
      IntToStringRoundTrip(elements[i]);
    }
  }

  // The containers of FormatStringTest.cpp.

  lemma DigitTexts()
    ensures IntToString(1) == "1" && IntToString(2) == "2" && IntToString(3) == "3" && IntToString(4) == "4"
    ensures IntToString(5) == "5" && IntToString(7) == "7" && IntToString(8) == "8" && IntToString(16) == "16"
  {
    assert NatToDigits(16, 10) == NatToDigits(1, 10) + [DigitChar(6)];
  }

  lemma ArrayExample()
    ensures Braced(DetectContainerName(StdArray(3)), MapSeq(IntToString, [3, 4, 5])) == "std::array<3>{3, 4, 5}"
  {
    DigitTexts();
    assert DetectContainerName(StdArray(3)) == "std::array<3>";
    assert MapSeq(IntToString, [3, 4, 5]) == ["3", "4", "5"];
    assert JoinComma(["3", "4", "5"]) == "3, 4, 5";
  }

  lemma DequeExample()
    ensures Braced(DetectContainerName(StdDeque), MapSeq(IntToString, [7, 5, 16, 8])) == "std::deque{7, 5, 16, 8}"
  {
    DigitTexts();
    assert MapSeq(IntToString, [7, 5, 16, 8]) == ["7", "5", "16", "8"];
    assert JoinComma(["7", "5", "16", "8"]) == "7, 5, 16, 8";
  }

  lemma MapSeqThree<T>(f: T -> string, a: T, b: T, c: T)
    ensures MapSeq(f, [a, b, c]) == [f(a), f(b), f(c)]
  {
  }

  lemma JoinCommaTwo(x: string, y: string)
    ensures JoinComma([x, y]) == x + ", " + y
  {
    assert [x, y][1..] == [y];
  }

  lemma JoinCommaThree(x: string, y: string, z: string)
    ensures JoinComma([x, y, z]) == x + ", " + y + ", " + z
  {
    assert [x, y, z][1..] == [y, z];
    assert [y, z][1..] == [z];
    assert JoinComma([y, z]) == y + ", " + z;
    assert JoinComma([x, y, z]) == x + ", " + (y + ", " + z);
  }

  lemma SetExample()
    ensures Braced(DetectContainerName(StdSet), MapSeq(IntToString, [3, 4, 5])) == "std::set{3, 4, 5}"
  {
    DigitTexts();
    MapSeqThree(IntToString, 3, 4, 5);
    JoinCommaThree("3", "4", "5");
  }

  lemma VectorExamples()
    ensures Braced(DetectContainerName(StdVector), MapSeq(IntToString, [1, 2, 3, 4])) == "std::vector{1, 2, 3, 4}"
    ensures Braced(DetectContainerName(StdVector), MapSeq(IntToString, [])) == "std::vector{}"
  {
    DigitTexts();
    assert MapSeq(IntToString, [1, 2, 3, 4]) == ["1", "2", "3", "4"];
    assert JoinComma(["1", "2", "3", "4"]) == "1, 2, 3, 4";
  }

  lemma QuoteTexts()
    ensures Quote("a") == "\"a\"" && Quote("b") == "\"b\""
  {
  }

  lemma ForwardListExample()
    ensures Braced(DetectContainerName(StdForwardList), MapSeq(Quote, ["a", "b", "a"])) == "std::forward_list{\"a\", \"b\", \"a\"}"
  {
    QuoteTexts();
    MapSeqThree(Quote, "a", "b", "a");
    JoinCommaThree("\"a\"", "\"b\"", "\"a\"");
  }

  lemma ListExample()
    ensures Braced(DetectContainerName(StdList), MapSeq(Quote, ["a", "b", "a"])) == "std::list{\"a\", \"b\", \"a\"}"
  {
    QuoteTexts();
    MapSeqThree(Quote, "a", "b", "a");
    JoinCommaThree("\"a\"", "\"b\"", "\"a\"");
  }

  lemma StringVectorExample()
    ensures Braced(DetectContainerName(StdVector), MapSeq(Quote, ["a"])) == "std::vector{\"a\"}"
  {
    QuoteTexts();
    assert MapSeq(Quote, ["a"]) == ["\"a\""];
  }

  /** The formatter of the map test: `{"key", value}`. */
  function EntryText(entry: (string, int)): string
  {
    "{" + Quote(entry.0) + ", " + IntToString(entry.1) + "}"
  }

  lemma EntryTexts()
    ensures EntryText(("a", 3)) == "{\"a\", 3}"
    ensures EntryText(("b", 4)) == "{\"b\", 4}"
    ensures EntryText(("c", 5)) == "{\"c\", 5}"
  {
    DigitTexts();
    assert Quote("c") == "\"c\"";
    QuoteTexts();
  }

  /** A map's (key, value) entries in key order through a custom formatter. */
  lemma MapExample()
    ensures Braced(DetectContainerName(StdMap), MapSeq(EntryText, [("a", 3), ("b", 4), ("c", 5)]))
      == "std::map{{\"a\", 3}, {\"b\", 4}, {\"c\", 5}}"
  {
    EntryTexts();
    MapSeqThree(EntryText, ("a", 3), ("b", 4), ("c", 5));
    JoinCommaThree("{\"a\", 3}", "{\"b\", 4}", "{\"c\", 5}");
  }

  /** The formatter of the nested test: each element printed by the integer overload. */
  function VectorText(v: seq<int>): string
  {
    Braced(DetectContainerName(StdVector), MapSeq(IntToString, v))
  }

  lemma NestedExample(empty: seq<int>)
    requires empty == []
    ensures Braced(DetectContainerName(StdVector), MapSeq(VectorText, [empty, empty])) == "std::vector{std::vector{}, std::vector{}}"
  {
    var text := VectorText(empty);
    EmptyVectorText(empty);
    assert MapSeq(VectorText, [empty, empty]) == [text, text];
    BracedTwo(DetectContainerName(StdVector), text);
    Nesting("std::vector", text);
  }

  lemma EmptyVectorText(empty: seq<int>)
    requires empty == []
    ensures VectorText(empty) == "std::vector{}"
  {
    assert MapSeq(IntToString, empty) == [];
  }

  lemma BracedTwo(name: string, text: string)
    ensures Braced(name, [text, text]) == name + "{" + text + ", " + text + "}"
  {
    JoinCommaTwo(text, text);
  }

  lemma Nesting(name: string, text: string)
    requires name == "std::vector" && text == "std::vector{}"
    ensures name + "{" + text + ", " + text + "}" == "std::vector{std::vector{}, std::vector{}}"
  {
  }
}
