/**
 * The runtime name table behind `IES_SMART_ENUM(EnumName, ...)`
 * (SmartEnum.hxx): `EnumImpl<SmartEnumT, EnumT, SizeC>` reads the
 * stringified enumerator list, splits it on ", " and maps enumerator
 * values 0 .. SizeC-1 to their names and back. SizeC is the argument
 * count of the macro, which a trailing comma makes one too large;
 * `CheckTrailingComma` catches that. Exceptions are `Err` values.
 */
module SmartEnum {
  import opened Wrappers
  import opened SplitString

  /** `IES_VARIADIC_SIZE_LIMIT`. */
  const VariadicSizeLimit: nat := 256

  /** `ToVector` splits with the separator string ", ", a set of two characters. */
  const EnumeratorSeparators: set<char> := {',', ' '}

  /** The underlying type of every SmartEnum is int. */
  type Int32 = x: int | -0x8000_0000 <= x < 0x8000_0000

  /** SizeC, bounded by the `static_assert` of `EnumImpl`. */
  type EnumSize = n: nat | 0 < n <= VariadicSizeLimit witness 1

  datatype EnumError = AssignedValue | TrailingComma | NoSuchEnumerator

  /** `Detail::ToVector`: the enumerator names of a definition, refused if one is assigned a value. */
  function ToVector(definition: string): (r: Result<seq<string>, EnumError>)
    ensures r.Err? <==> '=' in definition
    ensures r.Err? ==> r.error == AssignedValue
    ensures r.Ok? ==> forall name :: name in r.value ==> |name| > 0 && NoSeparatorIn(EnumeratorSeparators, name)
    ensures r.Ok? ==> Concat(r.value) == WithoutSeparators(EnumeratorSeparators, definition)
  {
    if '=' in definition then Err(AssignedValue)
    else
      RunsProperties(EnumeratorSeparators, definition);
      Ok(Runs(EnumeratorSeparators, definition))
  }

  /** `ToIndex`: static_cast of the int enumerator to a 64-bit size_t. */
  function ToIndex(e: Int32): (index: nat)
    ensures e >= 0 ==> index == e
    ensures e < 0 ==> index >= 0x8000_0000_0000_0000 && index - 0x1_0000_0000_0000_0000 == e
  {
    if e >= 0 then e else e + 0x1_0000_0000_0000_0000
  }

  /** The enumerators 0, 1, ..., k-1 in order. */
  function Enumerators(k: nat): (r: seq<Int32>)
    requires k <= VariadicSizeLimit
    ensures |r| == k
    ensures forall i :: 0 <= i < k ==> r[i] == i
  {
    if k == 0 then [] else Enumerators(k - 1) + [(k - 1) as Int32]
  }

  /** The first position of s in names, as the linear search of `To<EnumName>` finds it. */
  function FirstIndexOf(names: seq<string>, s: string): (r: Option<nat>)
    ensures r.None? <==> s !in names
    ensures r.Some? ==> r.value < |names| && names[r.value] == s
    ensures r.Some? ==> forall j :: 0 <= j < r.value ==> names[j] != s
  {
    if |names| == 0 then None
    else if names[0] == s then Some(0)
    else match FirstIndexOf(names[1..], s)
      case None => None
      case Some(i) => Some(i + 1)
  }

  /** With distinct names, the search finds each name at its own position. */
  lemma FirstIndexOfDistinct(names: seq<string>, i: nat)
    requires i < |names|
    requires forall j, k :: 0 <= j < k < |names| ==> names[j] != names[k]
    ensures FirstIndexOf(names, names[i]) == Some(i)
  {
    assert names[i] in names;
  }

  /** A string holding ',' or ' ' is never a name, so `Has(", ")` is false for every enum. */
  lemma SeparatorIsNeverAName(definition: string, s: string)
    requires exists c :: c in s && c in EnumeratorSeparators
    ensures ToVector(definition).Ok? ==> s !in ToVector(definition).value
  {
  }

  class EnumImpl {
    /** `SmartEnumT::GetName()`. */
    const name: string
    /** `SmartEnumT::GetEnumDefString()`: the macro's enumerator list as written. */
    const definition: string
    /** `SizeC`: the macro's argument count. */
    const size: EnumSize
    /** The static vector `ToRange` fills on its first successful call. */
    var range: seq<Int32>

    ghost predicate Valid()
      reads this
    {
      range == [] || range == Enumerators(size)
    }

    /** The range starts empty. */
    constructor (name: string, definition: string, size: EnumSize)
      ensures Valid()
      ensures this.name == name && this.definition == definition && this.size == size && range == []
    {
      this.name := name;
      this.definition := definition;
      this.size := size;
      range := [];
    }

    function Min(): int
    {
      0
    }

    /** The valid values are Min() .. Max(), Size() of them. */
    function Max(): (m: int)
      ensures m - Min() + 1 == Size()
    {
      size - 1
    }

    function Size(): nat
    {
      size
    }

    /** `ToStringVector`: the names, built once from the definition. */
    function StringVector(): Result<seq<string>, EnumError>
    {
      ToVector(definition)
    }

    /** `CheckTrailingComma`: the names must number Size(). */
    function CheckTrailingComma(): (r: Outcome<EnumError>)
      ensures r.Pass? <==> StringVector().Ok? && |StringVector().value| == size
      ensures r.Fail? && StringVector().Ok? ==> r.error == TrailingComma
      ensures StringVector().Err? ==> r == Fail(StringVector().error)
    {
      match StringVector()
      case Err(e) => Fail(e)
      case Ok(names) => if size != |names| then Fail(TrailingComma) else Pass
    }

    /** `ToString(enumerator)`: its name, or "" for a value outside Min() .. Max(). */
    function ToString(e: Int32): (r: Result<string, EnumError>)
      ensures r.Ok? <==> CheckTrailingComma().Pass?
      ensures r.Err? ==> r.error == CheckTrailingComma().error
      ensures r.Ok? ==> (r.value == "" <==> !(Min() <= e <= Max()))
      ensures r.Ok? && Min() <= e <= Max() ==> r.value == StringVector().value[e]
    {
      match CheckTrailingComma()
      case Fail(err) => Err(err)
      case Pass =>
        var index := ToIndex(e);
        if index >= Size() then Ok("")
        else
          var names := ToVector(definition).value;
          assert names[index] in names;
          Ok(names[index])
    }

    /** `ToRange`: the enumerators Min() .. Max() in order, filling the cache on the first call. */
    method ToRange() returns (r: Result<seq<Int32>, EnumError>)
      requires Valid()
      modifies this
      ensures Valid()
      ensures r.Err? <==> CheckTrailingComma().Fail?
      ensures r.Err? ==> r.error == CheckTrailingComma().error && range == old(range)
      ensures r.Ok? ==> r.value == range == Enumerators(size)
    {
      match CheckTrailingComma() {
        case Fail(err) =>
          return Err(err);
        case Pass =>
      }
      if range == [] {
        var i := Min();
        while i <= Max()
          invariant 0 <= i <= size
          invariant range == Enumerators(i)
        {
          range := range + [i as Int32];
          i := i + 1;
        }
      }
      r := Ok(range);
    }

    /** `Has`: whether s is exactly one of the names. */
    method Has(s: string) returns (r: Result<bool, EnumError>)
      ensures r.Err? <==> StringVector().Err?
      ensures r.Err? ==> r.error == AssignedValue
      ensures r.Ok? ==> (r.value <==> s in StringVector().value)
    {
      if StringVector().Err? {
        return Err(AssignedValue);
      }
      var names := StringVector().value;
      var i := 0;
      while i < |names|
        invariant 0 <= i <= |names|
        invariant s !in names[..i]
      {
        if s == names[i] {
          return Ok(true);
        }
        i := i + 1;
      }
      assert names[..i] == names;
      r := Ok(false);
    }

    /** `To<EnumName>`: the first enumerator whose name is s. */
    method ToEnum(s: string) returns (r: Result<Int32, EnumError>)
      requires Valid()
      modifies this
      ensures Valid()
      ensures CheckTrailingComma().Fail? ==> r == Err(CheckTrailingComma().error)
      ensures CheckTrailingComma().Pass? ==>
        match FirstIndexOf(StringVector().value, s)
        case Some(i) => r == Ok(i as Int32)
        case None => r == Err(NoSuchEnumerator)
    {
      var enumerators := ToRange();
      if enumerators.Err? {
        return Err(enumerators.error);
      }
      var names := StringVector().value;
      var all := enumerators.value;
      var i := 0;
      while i < |all|
        invariant 0 <= i <= |all| && all == Enumerators(size) && |names| == size
        invariant forall j :: 0 <= j < i ==> names[j] != s
      {
        if s == ToString(all[i]).value {
          assert names[i] == s;
          FirstIndexOfAt(names, s, i);
          return Ok(all[i]);
        }
        i := i + 1;
      }
      FirstIndexOfAbsent(names, s);
      r := Err(NoSuchEnumerator);
    }

    /** Over distinct names, `To<EnumName>(ToString(e))` is e for every valid e. */
    lemma ToEnumOfToString(e: Int32)
      requires CheckTrailingComma().Pass? && Min() <= e <= Max()
      requires forall j, k :: 0 <= j < k < |StringVector().value| ==> StringVector().value[j] != StringVector().value[k]
      ensures ToString(e).Ok?
      ensures FirstIndexOf(StringVector().value, ToString(e).value) == Some(e)
    {
      FirstIndexOfDistinct(StringVector().value, e);
    }

    /** Every name `To<EnumName>` accepts maps back to itself through `ToString`. */
    lemma ToStringOfToEnum(s: string)
      requires CheckTrailingComma().Pass? && FirstIndexOf(StringVector().value, s).Some?
      ensures ToString(FirstIndexOf(StringVector().value, s).value as Int32) == Ok(s)
    {
    }
  }

  /** The first match at i is the search's result. */
  lemma FirstIndexOfAt(names: seq<string>, s: string, i: nat)
    requires i < |names| && names[i] == s
    requires forall j :: 0 <= j < i ==> names[j] != s
    ensures FirstIndexOf(names, s) == Some(i)
  {
    var r := FirstIndexOf(names, s);
    assert r.Some?;
    if r.value > i {
      assert false;
    }
  }

  lemma FirstIndexOfAbsent(names: seq<string>, s: string)
    requires forall j :: 0 <= j < |names| ==> names[j] != s
    ensures FirstIndexOf(names, s) == None
  {
  }

  // The enums of SmartEnumTest.cpp.

  /** "A, B, C" followed by any number of separators names A, B and C. */
  lemma AbcNames(s: string)
    requires |s| >= 7 && s[0] == 'A' && s[1] == ',' && s[2] == ' ' && s[3] == 'B' && s[4] == ',' && s[5] == ' ' && s[6] == 'C'
    requires forall k :: 7 <= k < |s| ==> s[k] in EnumeratorSeparators
    ensures Runs(EnumeratorSeparators, s) == ["A", "B", "C"]
  {
    RunsSkipSeparators(EnumeratorSeparators, s, 7, |s|);
    assert RunsFrom(EnumeratorSeparators, s, 6) == ["C"] by {
      assert FindFirstOf(EnumeratorSeparators, s, 7) == 7;
      assert s[6..7] == "C";
    }
    assert RunsFrom(EnumeratorSeparators, s, 5) == ["C"];
    assert RunsFrom(EnumeratorSeparators, s, 4) == ["C"];
    assert RunsFrom(EnumeratorSeparators, s, 3) == ["B", "C"] by {
      assert FindFirstOf(EnumeratorSeparators, s, 4) == 4;
      assert s[3..4] == "B";
    }
    assert RunsFrom(EnumeratorSeparators, s, 2) == ["B", "C"];
    assert RunsFrom(EnumeratorSeparators, s, 1) == ["B", "C"];
    assert RunsFrom(EnumeratorSeparators, s, 0) == ["A", "B", "C"] by {
      assert FindFirstOf(EnumeratorSeparators, s, 1) == 1;
      assert s[0..1] == "A";
    }
  }

  /** `IES_SMART_ENUM(MyEnum, A, B, C)`: Max 2, Size 3, names A, B, C, and "" out of bounds. */
  lemma MyEnumUsage(impl: EnumImpl)
    requires impl.definition == "A, B, C" && impl.size == 3
    ensures impl.Max() == 2 && impl.Size() == 3
    ensures impl.ToString(0) == Ok("A") && impl.ToString(1) == Ok("B") && impl.ToString(2) == Ok("C")
    ensures impl.ToString(4) == Ok("")
    ensures FirstIndexOf(impl.StringVector().value, "A") == Some(0)
    ensures "C" in impl.StringVector().value && "D" !in impl.StringVector().value
  {
    AbcNames(impl.definition);
  }

  /** `IES_SMART_ENUM(TrailingComma, ...,)`: one name short of SizeC, so `ToString` fails. */
  lemma TrailingCommaRejected(impl: EnumImpl, e: Int32)
    requires impl.definition == "A, B, C," && impl.size == 4
    ensures |impl.StringVector().value| == 3
    ensures impl.ToString(e) == Err(TrailingComma)
  {
    AbcNames(impl.definition);
  }

  /** `IES_SMART_ENUM(AssignValueEnum, A, B=2, C)`: the names cannot be built. */
  lemma AssignedValueRejected(impl: EnumImpl, e: Int32)
    requires impl.definition == "A, B=2, C"
    ensures impl.ToString(e) == Err(AssignedValue)
  {
    assert impl.definition[4] == '=';
  }
}
