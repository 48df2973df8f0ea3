/**
 * `ies::ToBigEndian<T>` and `ies::ToLittleEndian<T>` (Endian.hxx) for the
 * integer types: read sizeof(T) bytes of a buffer as a value of T, most or
 * least significant byte first. Signed types read the bytes as two's
 * complement. The host is taken to be little-endian, as the header assumes,
 * so reinterpreting memory is reading least significant byte first.
 */
module Endian {
  import opened ByteDump

  /** The integer types T can be. */
  datatype IntType = U8 | S8 | U16 | S16 | U32 | S32 | U64 | S64

  /** sizeof(T). */
  function Size(t: IntType): (n: nat)
    ensures n == 1 || n == 2 || n == 4 || n == 8
  {
    match t
    case U8 | S8 => 1
    case U16 | S16 => 2
    case U32 | S32 => 4
    case U64 | S64 => 8
  }

  predicate Signed(t: IntType)
  {
    t.S8? || t.S16? || t.S32? || t.S64?
  }

  /** 256^n, the number of values n bytes can hold. */
  function Pow256(n: nat): (r: nat)
    ensures r >= 1
  {
    if n == 0 then 1 else 256 * Pow256(n - 1)
  }

  /** The smallest and one past the largest value of T. */
  function MinValue(t: IntType): int
  {
    if Signed(t) then -(Pow256(Size(t)) / 2) else 0
  }

  function Bound(t: IntType): int
  {
    if Signed(t) then Pow256(Size(t)) / 2 else Pow256(Size(t))
  }

  predicate InRange(t: IntType, v: int)
  {
    MinValue(t) <= v < Bound(t)
  }

  /** The number the bytes denote, least significant byte first. */
  function LittleEndianValue(bytes: seq<Byte>): (v: nat)
    ensures v < Pow256(|bytes|)
  {
    if bytes == [] then 0 else bytes[0] + 256 * LittleEndianValue(bytes[1..])
  }

  /** The number the bytes denote, most significant byte first. */
  function BigEndianValue(bytes: seq<Byte>): (v: nat)
    ensures v < Pow256(|bytes|)
  {
    if bytes == [] then 0
    else
      var rest := BigEndianValue(bytes[1..]);
      LeadingByteBound(bytes[0], Pow256(|bytes| - 1), rest);
      bytes[0] * Pow256(|bytes| - 1) + rest
  }

  lemma LeadingByteBound(b: Byte, p: nat, rest: nat)
    requires rest < p
    ensures b * p + rest < 256 * p
  {
    assert b * p + rest < (b + 1) * p;
    assert (b + 1) * p <= 256 * p;
  }

  /** A value of T whose bytes hold the number raw: two's complement for signed types. */
  function FromRaw(t: IntType, raw: nat): int
    requires raw < Pow256(Size(t))
  {
    if Signed(t) && raw >= Pow256(Size(t)) / 2 then raw - Pow256(Size(t)) else raw
  }

  /** The number the bytes of a value of T hold. */
  function ToRaw(t: IntType, v: int): nat
    requires InRange(t, v)
  {
    if v < 0 then v + Pow256(Size(t)) else v
  }

  /** The n bytes of raw, least significant first. */
  function LittleEndianBytes(raw: nat, n: nat): (bytes: seq<Byte>)
    ensures |bytes| == n
  {
    if n == 0 then [] else [raw % 256] + LittleEndianBytes(raw / 256, n - 1)
  }

  function Reversed(s: seq<Byte>): (r: seq<Byte>)
    ensures |r| == |s|
    ensures forall j :: 0 <= j < |s| ==> r[j] == s[|s| - 1 - j]
  {
    if s == [] then [] else Reversed(s[1..]) + [s[0]]
  }

  /** `ToLittleEndian<T>(buffer)`: reinterpret the first sizeof(T) bytes as T. */
  function ToLittleEndian(t: IntType, buffer: seq<Byte>): (v: int)
    requires Size(t) <= |buffer|
    ensures InRange(t, v)
  {
    FromRawInRange(t, LittleEndianValue(buffer[..Size(t)]));
    FromRaw(t, LittleEndianValue(buffer[..Size(t)]))
  }

  /**
   * `ToBigEndian<T>(buffer)`: copy the first sizeof(T) bytes into the
   * value's storage, swap byte i with byte size - i - 1 for i < size / 2,
   * and read the storage as T.
   */
  method ToBigEndian(t: IntType, buffer: seq<Byte>) returns (value: int)
    requires Size(t) <= |buffer|
    ensures value == FromRaw(t, BigEndianValue(buffer[..Size(t)]))
    ensures InRange(t, value)
  {
    var size := Size(t);
    var p := new Byte[size];
    for k := 0 to size
      invariant forall j :: 0 <= j < k ==> p[j] == buffer[j]
    {
      p[k] := buffer[k];
    }
    ghost var window := p[..];
    assert window == buffer[..size];
    SwapBytes(p);
    ReversedIsBigEndian(window);
    FromRawInRange(t, LittleEndianValue(p[..]));
    value := FromRaw(t, LittleEndianValue(p[..]));
  }

  /** The swap loop of `ToBigEndian`: byte i trades places with byte size - i - 1 for i < size / 2. */
  method SwapBytes(p: array<Byte>)
    modifies p
    ensures p[..] == Reversed(old(p[..]))
  {
    ghost var window := p[..];
    var size := p.Length;
    for i := 0 to size / 2
      invariant forall j :: 0 <= j < i ==> p[j] == window[size - 1 - j] && p[size - 1 - j] == window[j]
      invariant forall j :: i <= j < size - i ==> p[j] == window[j]
    {
      p[i], p[size - i - 1] := p[size - i - 1], p[i];
    }
  }

  /** `ToLittleEndian<T>(buffer, offset)`: read at buffer[offset], then advance offset by sizeof(T). */
  function ToLittleEndianAt(t: IntType, buffer: seq<Byte>, offset: nat): (r: (int, nat))
    requires offset + Size(t) <= |buffer|
    ensures r.0 == ToLittleEndian(t, buffer[offset..]) && r.1 == offset + Size(t)
  {
    (ToLittleEndian(t, buffer[offset..]), offset + Size(t))
  }

  /** `ToBigEndian<T>(buffer, offset)`: read at buffer[offset], then advance offset by sizeof(T). */
  method ToBigEndianAt(t: IntType, buffer: seq<Byte>, offset: nat) returns (value: int, newOffset: nat)
    requires offset + Size(t) <= |buffer|
    ensures value == FromRaw(t, BigEndianValue(buffer[offset..offset + Size(t)]))
    ensures newOffset == offset + Size(t)
  {
    value := ToBigEndian(t, buffer[offset..]);
    assert buffer[offset..][..Size(t)] == buffer[offset..offset + Size(t)];
    newOffset := offset + Size(t);
  }

  // Properties.

  /** Reading the bytes back as T gives a value of T, which has those bytes. */
  lemma FromRawInRange(t: IntType, raw: nat)
    requires raw < Pow256(Size(t))
    ensures InRange(t, FromRaw(t, raw))
    ensures ToRaw(t, FromRaw(t, raw)) == raw
  {
    PowEven(Size(t));
    HalfOfEven(Pow256(Size(t)));
  }

  /** Powers of 256 multiply by adding their exponents. */
  lemma {:induction false} Pow256Add(a: nat, b: nat)
    ensures Pow256(a + b) == Pow256(a) * Pow256(b)
    decreases a
  {
    if a > 0 {
      Pow256Add(a - 1, b);
      assert Pow256(a + b) == 256 * Pow256(a - 1 + b);
      assert 256 * (Pow256(a - 1) * Pow256(b)) == (256 * Pow256(a - 1)) * Pow256(b);
    }
  }

  /** 256^n is even for n > 0. */
  lemma PowEven(n: nat)
    requires n > 0
    ensures Pow256(n) % 2 == 0
  {
    assert Pow256(n) == 2 * (128 * Pow256(n - 1));
  }

  lemma HalfOfEven(p: int)
    requires p % 2 == 0
    ensures p - p / 2 == p / 2
  {
  }

  /** A value of T read back from its bytes is the value. */
  lemma ToRawRoundTrip(t: IntType, v: int)
    requires InRange(t, v)
    ensures ToRaw(t, v) < Pow256(Size(t))
    ensures FromRaw(t, ToRaw(t, v)) == v
  {
  }

  /** Writing a number as n bytes and reading them is the identity below 256^n. */
  lemma {:induction false} LittleEndianRoundTrip(raw: nat, n: nat)
    requires raw < Pow256(n)
    ensures LittleEndianValue(LittleEndianBytes(raw, n)) == raw
    decreases n
  {
    if n > 0 {
      LittleEndianRoundTrip(raw / 256, n - 1);
      assert LittleEndianBytes(raw, n)[1..] == LittleEndianBytes(raw / 256, n - 1);
    }
  }

  /** Reading n bytes and writing the number back gives the bytes. */
  lemma {:induction false} LittleEndianBytesOfValue(bytes: seq<Byte>)
    ensures LittleEndianBytes(LittleEndianValue(bytes), |bytes|) == bytes
    decreases |bytes|
  {
    if bytes != [] {
      LittleEndianBytesOfValue(bytes[1..]);
      var v := LittleEndianValue(bytes[1..]);
      assert (bytes[0] + 256 * v) % 256 == bytes[0];
      assert (bytes[0] + 256 * v) / 256 == v;
    }
  }

  /** A byte appended at the back is the most significant one. */
  lemma {:induction false} LittleEndianSnoc(bytes: seq<Byte>, b: Byte)
    ensures LittleEndianValue(bytes + [b]) == LittleEndianValue(bytes) + b * Pow256(|bytes|)
    decreases |bytes|
  {
    if bytes != [] {
      var rest := bytes[1..];
      LittleEndianSnoc(rest, b);
      assert (bytes + [b])[1..] == rest + [b];
      var p := Pow256(|rest|);
      calc {
        LittleEndianValue(bytes + [b]);
        bytes[0] + 256 * LittleEndianValue(rest + [b]);
        bytes[0] + 256 * (LittleEndianValue(rest) + b * p);
        { Distribute(LittleEndianValue(rest), b, p); }
        LittleEndianValue(bytes) + b * (256 * p);
      }
    } else {
      assert ([] + [b])[1..] == [];
    }
  }

  lemma Distribute(x: int, y: int, p: int)
    ensures 256 * (x + y * p) == 256 * x + y * (256 * p)
  {
  }

  /** Reading bytes most significant first is reading them reversed least significant first. */
  lemma {:induction false} ReversedIsBigEndian(s: seq<Byte>)
    ensures LittleEndianValue(Reversed(s)) == BigEndianValue(s)
    decreases |s|
  {
    if s != [] {
      ReversedIsBigEndian(s[1..]);
      LittleEndianSnoc(Reversed(s[1..]), s[0]);
    }
  }

  /** What ToBigEndian computes: the little-endian reading of the reversed window. */
  lemma BigEndianIsReversedLittleEndian(t: IntType, buffer: seq<Byte>)
    requires Size(t) <= |buffer|
    ensures FromRaw(t, BigEndianValue(buffer[..Size(t)])) == ToLittleEndian(t, Reversed(buffer[..Size(t)]))
  {
    ReversedIsBigEndian(buffer[..Size(t)]);
    assert Reversed(buffer[..Size(t)])[..Size(t)] == Reversed(buffer[..Size(t)]);
  }

  // Examples.

  /** {FF} as unsigned and signed char: 255 and -1. */
  method ByteExamples() returns (u: int, s: int)
    ensures u == 0xFF && s == -1
  {
    u := ToBigEndian(U8, [0xFF]);
    s := ToBigEndian(S8, [0xFF]);
  }

  /** {AB, CD} as uint16 and int16 most significant first: 0xABCD and -21555. */
  method SixteenBitExamples() returns (u: int, s: int)
    ensures u == 0xABCD && s == -21555
  {
    u := ToBigEndian(U16, [0xAB, 0xCD]);
    s := ToBigEndian(S16, [0xAB, 0xCD]);
  }

  /** Four bytes most significant first, and least significant first, as polynomials in 256. */
  lemma FourBytes(a: Byte, b: Byte, c: Byte, d: Byte)
    ensures BigEndianValue([a, b, c, d]) == a * 0x100_0000 + b * 0x1_0000 + c * 0x100 + d
    ensures LittleEndianValue([a, b, c, d]) == d * 0x100_0000 + c * 0x1_0000 + b * 0x100 + a
  {
    var s: seq<Byte> := [a, b, c, d];
    assert s[1..] == [b, c, d] && s[1..][1..] == [c, d] && s[1..][1..][1..] == [d];
    assert [d][1..] == [];
    assert Pow256(1) == 0x100 && Pow256(2) == 0x1_0000 && Pow256(3) == 0x100_0000;
    assert BigEndianValue([d]) == d;
    assert BigEndianValue([c, d]) == c * 0x100 + d;
    assert BigEndianValue([b, c, d]) == b * 0x1_0000 + c * 0x100 + d;
    assert LittleEndianValue([d]) == d;
    assert LittleEndianValue([c, d]) == c + 256 * d;
    assert LittleEndianValue([b, c, d]) == b + 256 * (c + 256 * d);
  }

  /** Eight bytes most significant first: the first four, then the last four. */
  lemma EightBytes(high: seq<Byte>, low: seq<Byte>)
    requires |high| == 4 && |low| == 4
    ensures BigEndianValue(high + low) == BigEndianValue(high) * 0x1_0000_0000 + BigEndianValue(low)
  {
    BigEndianAppend(high, low);
    assert Pow256(4) == 0x1_0000_0000;
  }

  /** Bytes most significant first followed by more: the first part shifted past the second. */
  lemma {:induction false} BigEndianAppend(high: seq<Byte>, low: seq<Byte>)
    ensures BigEndianValue(high + low) == BigEndianValue(high) * Pow256(|low|) + BigEndianValue(low)
  {
    if high != [] {
      var s := high + low;
      assert s[1..] == high[1..] + low;
      assert |s| - 1 == (|high| - 1) + |low|;
      BigEndianAppend(high[1..], low);
      PowAdd(|high| - 1, |low|);
      Regroup(high[0] as int, Pow256(|high| - 1), Pow256(|low|), BigEndianValue(high[1..]), BigEndianValue(low));
    } else {
      assert high + low == low;
    }
  }

  lemma Regroup(h: int, p: int, q: int, r: int, l: int)
    ensures h * (p * q) + (r * q + l) == (h * p + r) * q + l
  {
  }

  lemma {:induction false} PowAdd(m: nat, n: nat)
    ensures Pow256(m + n) == Pow256(m) * Pow256(n)
  {
    if m > 0 {
      PowAdd(m - 1, n);
      MulAssoc(256, Pow256(m - 1), Pow256(n));
    }
  }

  lemma MulAssoc(a: int, b: int, c: int)
    ensures a * (b * c) == (a * b) * c
  {
  }

  /** A four-byte type read from {a, b, c, d} in both byte orders. */
  method ReadFourBytes(t: IntType, a: Byte, b: Byte, c: Byte, d: Byte) returns (big: int, little: int)
    requires Size(t) == 4
    ensures big == FromRaw(t, a * 0x100_0000 + b * 0x1_0000 + c * 0x100 + d)
    ensures little == FromRaw(t, d * 0x100_0000 + c * 0x1_0000 + b * 0x100 + a)
  {
    var buffer: seq<Byte> := [a, b, c, d];
    assert buffer[..4] == buffer;
    big := ToBigEndian(t, buffer);
    little := ToLittleEndian(t, buffer);
    FourBytes(a, b, c, d);
  }

  /** An eight-byte type read most significant first from {a, ..., h}. */
  method ReadEightBytes(t: IntType, a: Byte, b: Byte, c: Byte, d: Byte, e: Byte, f: Byte, g: Byte, h: Byte)
    returns (big: int)
    requires Size(t) == 8
    ensures big == FromRaw(t, (a * 0x100_0000 + b * 0x1_0000 + c * 0x100 + d) * 0x1_0000_0000
                              + (e * 0x100_0000 + f * 0x1_0000 + g * 0x100 + h))
  {
    var high: seq<Byte> := [a, b, c, d];
    var low: seq<Byte> := [e, f, g, h];
    assert (high + low)[..8] == high + low;
    big := ToBigEndian(t, high + low);
    FourBytes(a, b, c, d);
    FourBytes(e, f, g, h);
    EightBytes(high, low);
  }

  /** {01, 02, 03, 04} as uint32: 0x01020304 most significant first, 0x04030201 least significant first. */
  method ThirtyTwoBitExamples() returns (big: int, little: int, signed: int)
    ensures big == 0x01020304 && little == 0x04030201 && signed == -1412567292
  {
    big, little := ReadFourBytes(U32, 0x01, 0x02, 0x03, 0x04);
    var unused;
    signed, unused := ReadFourBytes(S32, 0xAB, 0xCD, 0xEF, 0x04);
  }

  /** Eight bytes as uint64 and int64, most significant first. */
  method SixtyFourBitExamples() returns (u: int, s: int)
    ensures u == 0x0102030405060708 && s == -81985565399200273
  {
    u := ReadEightBytes(U64, 0x01, 0x02, 0x03, 0x04, 0x05, 0x06, 0x07, 0x08);
    s := ReadEightBytes(S64, 0xFE, 0xDC, 0xBA, 0x90, 0x09, 0xAB, 0xCD, 0xEF);
  }

  /** Two bytes in either order. */
  lemma TwoBytes(window: seq<Byte>)
    requires |window| == 2
    ensures BigEndianValue(window) == 256 * (window[0] as int) + window[1]
    ensures LittleEndianValue(window) == window[0] as int + 256 * (window[1] as int)
  {
    assert window[1..][1..] == [];
  }

  /**
   * The offset test loop: read |buffer| / 2 uint16 values with
   * `ToBigEndian<uint16_t>(buffer, offset)`, starting at offset 0.
   */
  method BigEndianWords(buffer: seq<Byte>) returns (values: seq<int>, offset: nat)
    ensures |values| == |buffer| / 2 && offset == 2 * (|buffer| / 2)
    ensures forall k :: 0 <= k < |values| ==> values[k] == 256 * (buffer[2 * k] as int) + buffer[2 * k + 1]
  {
    values, offset := [], 0;
    for i := 0 to |buffer| / 2
      invariant offset == 2 * i && |values| == i
      invariant forall k :: 0 <= k < i ==> values[k] == 256 * (buffer[2 * k] as int) + buffer[2 * k + 1]
    {
      var value;
      value, offset := ToBigEndianAt(U16, buffer, offset);
      TwoBytes(buffer[2 * i..2 * i + 2]);
      values := values + [value];
    }
  }

  /** The same loop with `ToLittleEndian<uint16_t>(buffer, offset)`. */
  method LittleEndianWords(buffer: seq<Byte>) returns (values: seq<int>, offset: nat)
    ensures |values| == |buffer| / 2 && offset == 2 * (|buffer| / 2)
    ensures forall k :: 0 <= k < |values| ==> values[k] == buffer[2 * k] as int + 256 * (buffer[2 * k + 1] as int)
  {
    values, offset := [], 0;
    for i := 0 to |buffer| / 2
      invariant offset == 2 * i && |values| == i
      invariant forall k :: 0 <= k < i ==> values[k] == buffer[2 * k] as int + 256 * (buffer[2 * k + 1] as int)
    {
      var read := ToLittleEndianAt(U16, buffer, offset);
      assert buffer[2 * i..][..2] == buffer[2 * i..2 * i + 2];
      TwoBytes(buffer[2 * i..2 * i + 2]);
      values, offset := values + [read.0], read.1;
    }
  }

  /** Four uint16 reads with an advancing offset over eight bytes, in both byte orders. */
  method OffsetExamples() returns (big: seq<int>, little: seq<int>, bigOffset: nat, littleOffset: nat)
    ensures big == [0x0102, 0x0304, 0x0506, 0x0708] && bigOffset == 8
    ensures little == [0x0201, 0x0403, 0x0605, 0x0807] && littleOffset == 8
  {
    var buffer: seq<Byte> := [0x01, 0x02, 0x03, 0x04, 0x05, 0x06, 0x07, 0x08];
    big, bigOffset := BigEndianWords(buffer);
    little, littleOffset := LittleEndianWords(buffer);
    assert big[0] == 0x0102 && big[1] == 0x0304 && big[2] == 0x0506 && big[3] == 0x0708;
    assert little[0] == 0x0201 && little[1] == 0x0403 && little[2] == 0x0605 && little[3] == 0x0807;
  }
}
