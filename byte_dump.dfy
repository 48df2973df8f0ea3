/**
 * `ies::ToString` of a byte array (Byte.cpp): a hex dump of the bytes in
 * [begin, end), sixteen to a line, after a header naming the array and the
 * range, a column header and a ruler. Every printed line has sixteen
 * three-character cells; cells outside the range are blank, and each line
 * ends with its offset.
 */
module ByteDump {
  import opened NumberText

  /** `ies::Byte`, an unsigned char. */
  type Byte = x: int | 0 <= x < 256

  const ColumnHeader: string := "|00 01 02 03 04 05 06 07|08 09 0A 0B 0C 0D 0E 0F| Line Offset\n"
  const Ruler: string := "+-----------------------+-----------------------+\n"

  /** The first three lines of every dump. */
  function Header(name: string, begin: nat, end: nat): string
    requires begin <= end
  {
    "ByteArray {" + name + "}, range [" + NatToString(begin) + ", " + NatToString(end)
    + "), size [" + NatToString(end - begin) + "]:\n" + ColumnHeader + Ruler
  }

  /** A cell opens with '|' at columns 0 and 8 and with a space elsewhere. */
  function Separator(column: nat): char
  {
    if column % 16 != 0 && column % 16 != 8 then ' ' else '|'
  }

  /** The end of line number `line`: its offset, the line number in hex followed by 0. */
  function LineEnd(line: nat): string
  {
    "| " + HexString(line) + "0\n"
  }

  /**
   * The cell at absolute position p: the byte in hex inside [begin, end),
   * blank outside. (A position in the range but past the data, which every
   * caller's precondition excludes, would print blank too.)
   */
  function Cell(data: seq<Byte>, begin: nat, end: nat, p: nat): (c: string)
    ensures |c| == 3 && c[0] == Separator(p)
  {
    if begin <= p < end && p < |data| then [Separator(p)] + HexByte(data[p]) else [Separator(p)] + "  "
  }

  /** Position p of the dump: its cell, followed by the line's end after column 15. */
  function Piece(data: seq<Byte>, begin: nat, end: nat, p: nat): string
  {
    Cell(data, begin, end, p) + (if p % 16 == 15 then LineEnd(p / 16) else "")
  }

  /** The values f(lo), ..., f(hi - 1), in order. */
  function Run<T>(f: nat -> T, lo: nat, hi: nat): seq<T>
    decreases hi
  {
    if hi <= lo then [] else Run(f, lo, hi - 1) + [f(hi - 1)]
  }

  function CellAt(data: seq<Byte>, begin: nat, end: nat): nat -> string
  {
    (p: nat) => Cell(data, begin, end, p)
  }

  function PieceAt(data: seq<Byte>, begin: nat, end: nat): nat -> string
  {
    (p: nat) => Piece(data, begin, end, p)
  }

  /** The cells of positions lo..hi - 1. */
  function Cells(data: seq<Byte>, begin: nat, end: nat, lo: nat, hi: nat): seq<string>
  {
    Run(CellAt(data, begin, end), lo, hi)
  }

  /** The pieces of positions lo..hi - 1. */
  function Pieces(data: seq<Byte>, begin: nat, end: nat, lo: nat, hi: nat): seq<string>
  {
    Run(PieceAt(data, begin, end), lo, hi)
  }

  /** The texts of ts, one after the other. */
  function Concat(ts: seq<string>): string
  {
    if ts == [] then "" else Concat(ts[..|ts| - 1]) + ts[|ts| - 1]
  }

  /** The position after the last line: end rounded up to a multiple of 16. */
  function LineBoundary(end: nat): (stop: nat)
    ensures end <= stop < end + 16 && stop % 16 == 0
  {
    if end % 16 == 0 then end else end - end % 16 + 16
  }

  /**
   * The dump of [begin, end) of data, with begin first clamped to end: the
   * header, then whole lines from the one holding begin to the one holding
   * end - 1; an empty range prints the header alone.
   */
  function Dump(data: seq<Byte>, begin: nat, end: nat, name: string): string
  {
    if end <= begin then Header(name, end, end)
    else Header(name, begin, end) + Concat(Pieces(data, begin, end, begin - begin % 16, LineBoundary(end)))
  }

  /**
   * The overload on a raw pointer: clamp begin to end, write the header,
   * blank cells before begin, the bytes, and blank cells up to the end of
   * the last line, then that line's end. There is no bounds check, so a
   * non-empty range must lie within the data.
   */
  method ToStringOfData(data: seq<Byte>, beginValue: nat, end: nat, name: string) returns (s: string)
    requires beginValue < end ==> end <= |data|
    ensures s == Dump(data, beginValue, end, name)
  {
    var begin := beginValue;
    if begin > end {
      begin := end;
    }
    s := Header(name, begin, end);
    if begin == end {
      EmptyRangePrintsHeader(data, beginValue, end, name);
      return;
    }
    s := AppendLines(s, data, begin, end);
    NonEmptyRange(data, begin, end, name);
  }

  /**
   * Everything after the header of a non-empty range: blank cells before
   * begin, the bytes, and blank cells up to the end of the last line, then
   * that line's end.
   */
  method AppendLines(s0: string, data: seq<Byte>, begin: nat, end: nat) returns (s: string)
    requires begin < end <= |data|
    ensures s == s0 + Concat(Pieces(data, begin, end, begin - begin % 16, LineBoundary(end)))
  {
    var lineCount := begin / 16;
    var lead := AppendLeading(s0, data, begin, end);
    var body;
    body, lineCount := AppendBytes(lead, data, begin, end, lineCount);
    s := AppendTrailing(body, data, begin, end, lineCount);
    DumpLayout(data, begin, end);
    Compose(s0, lead, body, s,
      Concat(Pieces(data, begin, end, begin - begin % 16, begin)), Concat(Pieces(data, begin, end, begin, end)),
      Concat(Pieces(data, begin, end, end, LineBoundary(end))), Concat(Pieces(data, begin, end, begin - begin % 16, LineBoundary(end))));
  }

  /** The blank cells from the start of begin's line up to begin, written only when begin is not at a line start. */
  method AppendLeading(s0: string, data: seq<Byte>, begin: nat, end: nat) returns (s: string)
    requires begin < end
    ensures s == s0 + Concat(Pieces(data, begin, end, begin - begin % 16, begin))
  {
    if begin % 16 != 0 {
      s := AppendBlanks(s0, data, begin, end, begin - begin % 16, 0, begin % 16);
      LeadingLine(s0, s, data, begin, end);
    } else {
      s := s0;
      assert Pieces(data, begin, end, begin - begin % 16, begin) == [];
      AppendEmpty(s0);
    }
  }

  /** The leading blanks of begin's line make up the pieces from the line's start to begin. */
  lemma LeadingLine(s0: string, s: string, data: seq<Byte>, begin: nat, end: nat)
    requires s == s0 + Concat(Cells(data, begin, end, begin - begin % 16 + 0, begin - begin % 16 + begin % 16))
    ensures s == s0 + Concat(Pieces(data, begin, end, begin - begin % 16, begin))
  {
    var start := begin - begin % 16;
    LineOf(begin);
    assert start + 0 == start && start + begin % 16 == begin;
    PiecesBeforeLineEnd(data, begin, end, start, start, begin);
  }

  /**
   * When end is not at a line start, the blank cells from end to the end of
   * its line, then that line's end, numbered lineCount.
   */
  method AppendTrailing(s0: string, data: seq<Byte>, begin: nat, end: nat, lineCount: nat) returns (s: string)
    requires begin < end && lineCount == end / 16
    ensures s == s0 + Concat(Pieces(data, begin, end, end, LineBoundary(end)))
  {
    if end % 16 != 0 {
      var blanks := AppendBlanks(s0, data, begin, end, end - end % 16, end % 16, 16);
      s := blanks + ("| " + HexString(lineCount) + "0\n");
      TrailingLine(s0, blanks, s, data, begin, end);
    } else {
      s := s0;
      assert Pieces(data, begin, end, end, LineBoundary(end)) == [];
      AppendEmpty(s0);
    }
  }

  /** The trailing blanks of end's line and its line end make up the pieces from end to the line boundary. */
  lemma TrailingLine(s0: string, blanks: string, s: string, data: seq<Byte>, begin: nat, end: nat)
    requires end % 16 != 0
    requires blanks == s0 + Concat(Cells(data, begin, end, end - end % 16 + end % 16, end - end % 16 + 16))
    requires s == blanks + ("| " + HexString(end / 16) + "0\n")
    ensures s == s0 + Concat(Pieces(data, begin, end, end, LineBoundary(end)))
  {
    var lineStart := end - end % 16;
    LineOf(end);
    assert lineStart + end % 16 == end && LineBoundary(end) == lineStart + 16;
    var cells := Concat(Cells(data, begin, end, end, lineStart + 16));
    assert blanks == s0 + cells;
    LineTail(data, begin, end, lineStart, end);
    assert LineEnd(lineStart / 16) == LineEnd(end / 16) == "| " + HexString(end / 16) + "0\n";
    assert Concat(Pieces(data, begin, end, end, LineBoundary(end))) == cells + LineEnd(end / 16);
    Append(s0, cells, LineEnd(end / 16));
  }

  /**
   * The loops over the blank columns from..to - 1 of the line starting at
   * lineStart, none of them inside the range.
   */
  method AppendBlanks(s0: string, data: seq<Byte>, begin: nat, end: nat, lineStart: nat, from: nat, to: nat)
    returns (s: string)
    requires lineStart % 16 == 0 && from <= to <= 16
    requires lineStart + to <= begin || end <= lineStart + from
    ensures s == s0 + Concat(Cells(data, begin, end, lineStart + from, lineStart + to))
  {
    s := s0;
    for i := from to to
      invariant s == s0 + Concat(Cells(data, begin, end, lineStart + from, lineStart + i))
    {
      s := AppendBlank(s0, s, data, begin, end, lineStart, from, to, i);
    }
  }

  /** Writing the piece at i after pieces lo..i - 1 writes pieces lo..i. */
  lemma PiecesStep(s0: string, before: string, s: string, data: seq<Byte>, begin: nat, end: nat, lo: nat, i: nat)
    requires lo <= i
    requires before == s0 + Concat(Pieces(data, begin, end, lo, i))
    requires s == before + Piece(data, begin, end, i)
    ensures s == s0 + Concat(Pieces(data, begin, end, lo, i + 1))
  {
    PiecesSnoc(data, begin, end, lo, i);
    ConcatSnoc(Pieces(data, begin, end, lo, i), Piece(data, begin, end, i));
    Append(s0, Concat(Pieces(data, begin, end, lo, i)), Piece(data, begin, end, i));
  }

  /**
   * One pass of a loop over blank columns: the blank cell in column i of the
   * line, after those of columns from..i - 1.
   */
  method AppendBlank(ghost s0: string, before: string, data: seq<Byte>, begin: nat, end: nat, lineStart: nat, from: nat, to: nat, i: nat)
    returns (s: string)
    requires lineStart % 16 == 0 && from <= i < to <= 16
    requires lineStart + to <= begin || end <= lineStart + from
    requires before == s0 + Concat(Cells(data, begin, end, lineStart + from, lineStart + i))
    ensures s == s0 + Concat(Cells(data, begin, end, lineStart + from, lineStart + (i + 1)))
  {
    var separate := '|';
    if i % 16 != 0 && i % 16 != 8 {
      separate := ' ';
    }
    s := before + ([separate] + "  ");
    ColumnOfLine(lineStart, i);
    CellsStep(s0, before, s, data, begin, end, lineStart, from, i);
  }

  /** Writing the cell in column i after the cells of columns from..i - 1 writes those of from..i. */
  lemma CellsStep(s0: string, before: string, s: string, data: seq<Byte>, begin: nat, end: nat, lineStart: nat, from: nat, i: nat)
    requires from <= i
    requires before == s0 + Concat(Cells(data, begin, end, lineStart + from, lineStart + i))
    requires s == before + Cell(data, begin, end, lineStart + i)
    ensures s == s0 + Concat(Cells(data, begin, end, lineStart + from, lineStart + (i + 1)))
  {
    CellsSnoc(data, begin, end, lineStart + from, lineStart + i);
    assert lineStart + (i + 1) == lineStart + i + 1;
    ConcatSnoc(Cells(data, begin, end, lineStart + from, lineStart + i), Cell(data, begin, end, lineStart + i));
    Append(s0, Concat(Cells(data, begin, end, lineStart + from, lineStart + i)), Cell(data, begin, end, lineStart + i));
  }

  /**
   * The loop over the range: each byte in hex, and after column 15 the
   * line's end, counting lines from lineCount0, the line holding begin.
   */
  method AppendBytes(s0: string, data: seq<Byte>, begin: nat, end: nat, lineCount0: nat)
    returns (s: string, lineCount: nat)
    requires begin <= end <= |data| && lineCount0 == begin / 16
    ensures s == s0 + Concat(Pieces(data, begin, end, begin, end))
    ensures lineCount == end / 16
  {
    s, lineCount := s0, lineCount0;
    for i := begin to end
      invariant s == s0 + Concat(Pieces(data, begin, end, begin, i))
      invariant lineCount == i / 16
    {
      ghost var before := s;
      s, lineCount := AppendByte(s, data, begin, end, i, lineCount);
      PiecesStep(s0, before, s, data, begin, end, begin, i);
    }
  }

  /** One pass of the loop over the range: the byte at position i and, after column 15, the line's end. */
  method AppendByte(s0: string, data: seq<Byte>, begin: nat, end: nat, i: nat, lineCount0: nat)
    returns (s: string, lineCount: nat)
    requires begin <= i < end <= |data| && lineCount0 == i / 16
    ensures s == s0 + Piece(data, begin, end, i)
    ensures lineCount == (i + 1) / 16
  {
    var separate := '|';
    if i % 16 != 0 && i % 16 != 8 {
      separate := ' ';
    }
    NextLine(i);
    ghost var cell := Cell(data, begin, end, i);
    s, lineCount := s0 + ([separate] + HexByte(data[i])), lineCount0;
    if (i + 1) % 16 == 0 {
      s := s + ("| " + HexString(lineCount) + "0\n");
      lineCount := lineCount + 1;
      Append(s0, cell, LineEnd(i / 16));
    } else {
      assert Piece(data, begin, end, i) == cell + "";
    }
  }

  /** The overload on a byte array and a range: end is clamped to the array's size. */
  method ToStringOfRange(byteArray: seq<Byte>, begin: nat, end: nat, name: string) returns (s: string)
    ensures s == Dump(byteArray, begin, if end > |byteArray| then |byteArray| else end, name)
  {
    var stop := end;
    if stop > |byteArray| {
      stop := |byteArray|;
    }
    s := ToStringOfData(byteArray, begin, stop, name);
  }

  /** The overload on a whole byte array: the range [0, |byteArray|). */
  method ToString(byteArray: seq<Byte>, name: string) returns (s: string)
    ensures s == Dump(byteArray, 0, |byteArray|, name)
  {
    s := ToStringOfRange(byteArray, 0, |byteArray|, name);
  }

  // Joining texts.

  lemma Append(a: string, r: string, x: string)
    ensures a + r + x == a + (r + x)
  {
  }

  /** Appending x to the whole of a split appends it to the split's right part. */
  lemma SnocSplit<T>(whole: seq<T>, left: seq<T>, right: seq<T>, x: T, whole': seq<T>, right': seq<T>)
    requires whole == left + right && whole' == whole + [x] && right' == right + [x]
    ensures whole' == left + right'
  {
  }

  lemma AppendEmpty(a: string)
    ensures a + "" == a
  {
  }

  /** Three appends of the parts of r write r. */
  lemma Compose(s0: string, lead: string, body: string, s: string, a: string, b: string, c: string, r: string)
    requires lead == s0 + a
    requires body == lead + b
    requires s == body + c
    requires r == a + b + c
    ensures s == s0 + r
  {
  }

  /** One more text at the back. */
  lemma ConcatSnoc(ts: seq<string>, t: string)
    ensures Concat(ts + [t]) == Concat(ts) + t
  {
    assert (ts + [t])[..|ts|] == ts;
  }

  /** Joining two lists of texts concatenates their joins. */
  lemma {:induction false} ConcatAppend(ts: seq<string>, us: seq<string>)
    ensures Concat(ts + us) == Concat(ts) + Concat(us)
    decreases |us|
  {
    if us == [] {
      assert ts + us == ts;
    } else {
      var init, last := us[..|us| - 1], us[|us| - 1];
      assert us == init + [last];
      assert ts + us == (ts + init) + [last];
      ConcatSnoc(ts + init, last);
      ConcatAppend(ts, init);
      ConcatSnoc(init, last);
      Append(Concat(ts), Concat(init), last);
    }
  }

  // Positions and lines.

  /** The start of p's line is a multiple of 16 with the same line number. */
  lemma LineOf(p: nat)
    ensures (p - p % 16) % 16 == 0 && (p - p % 16) / 16 == p / 16
  {
    assert p == 16 * (p / 16) + p % 16;
  }

  /** Position column of a line: the same column and line number as the line's start. */
  lemma ColumnOfLine(lineStart: nat, column: nat)
    requires lineStart % 16 == 0 && column < 16
    ensures (lineStart + column) % 16 == column && (lineStart + column) / 16 == lineStart / 16
  {
    assert lineStart == 16 * (lineStart / 16);
  }

  /** Position p + 1 starts a new line exactly when p is in column 15. */
  lemma NextLine(p: nat)
    ensures (p + 1) % 16 == 0 <==> p % 16 == 15
    ensures (p + 1) / 16 == if p % 16 == 15 then p / 16 + 1 else p / 16
  {
    assert p == 16 * (p / 16) + p % 16;
  }

  // Runs of positions.

  /** Consecutive runs concatenate. */
  lemma {:induction false} RunSplit<T>(f: nat -> T, lo: nat, mid: nat, hi: nat)
    requires lo <= mid <= hi
    ensures Run(f, lo, hi) == Run(f, lo, mid) + Run(f, mid, hi)
    decreases hi
  {
    if mid < hi {
      RunSplit(f, lo, mid, hi - 1);
      SnocSplit(Run(f, lo, hi - 1), Run(f, lo, mid), Run(f, mid, hi - 1), f(hi - 1), Run(f, lo, hi), Run(f, mid, hi));
    } else {
      assert Run(f, lo, mid) + [] == Run(f, lo, mid);
    }
  }

  /** Runs of two functions that agree on the positions are equal. */
  lemma {:induction false} RunAgree<T>(f: nat -> T, g: nat -> T, lo: nat, hi: nat)
    requires forall p :: lo <= p < hi ==> f(p) == g(p)
    ensures Run(f, lo, hi) == Run(g, lo, hi)
    decreases hi
  {
    if lo < hi {
      RunAgree(f, g, lo, hi - 1);
    }
  }

  /** A run of texts of three characters each takes three per position; text k starts at 3k. */
  lemma {:induction false} RunOfTriples(f: nat -> string, lo: nat, hi: nat, k: nat)
    requires forall p :: lo <= p < hi ==> |f(p)| == 3
    ensures |Concat(Run(f, lo, hi))| == if hi <= lo then 0 else 3 * (hi - lo)
    ensures lo + k < hi ==> Concat(Run(f, lo, hi))[3 * k] == f(lo + k)[0]
    decreases hi
  {
    if lo < hi {
      RunOfTriples(f, lo, hi - 1, k);
      ConcatSnoc(Run(f, lo, hi - 1), f(hi - 1));
      TripleStep(Concat(Run(f, lo, hi - 1)), f(hi - 1), hi - 1 - lo, k);
    }
  }

  /** Text of 3n characters followed by a triple: 3(n + 1) characters, the triple at 3n. */
  lemma TripleStep(before: string, last: string, n: nat, k: nat)
    requires |before| == 3 * n && |last| == 3
    ensures |before + last| == 3 * (n + 1)
    ensures k < n ==> (before + last)[3 * k] == before[3 * k]
    ensures k == n ==> (before + last)[3 * k] == last[0]
  {
  }

  lemma CellsSnoc(data: seq<Byte>, begin: nat, end: nat, lo: nat, hi: nat)
    requires lo <= hi
    ensures Cells(data, begin, end, lo, hi + 1) == Cells(data, begin, end, lo, hi) + [Cell(data, begin, end, hi)]
  {
    assert CellAt(data, begin, end)(hi) == Cell(data, begin, end, hi);
  }

  lemma PiecesSnoc(data: seq<Byte>, begin: nat, end: nat, lo: nat, hi: nat)
    requires lo <= hi
    ensures Pieces(data, begin, end, lo, hi + 1) == Pieces(data, begin, end, lo, hi) + [Piece(data, begin, end, hi)]
  {
    assert PieceAt(data, begin, end)(hi) == Piece(data, begin, end, hi);
  }

  /** Consecutive stretches of positions concatenate. */
  lemma PiecesSplit(data: seq<Byte>, begin: nat, end: nat, lo: nat, mid: nat, hi: nat)
    requires lo <= mid <= hi
    ensures Pieces(data, begin, end, lo, hi) == Pieces(data, begin, end, lo, mid) + Pieces(data, begin, end, mid, hi)
  {
    RunSplit(PieceAt(data, begin, end), lo, mid, hi);
  }

  /** Before column 15 a line's pieces are just its cells. */
  lemma PiecesBeforeLineEnd(data: seq<Byte>, begin: nat, end: nat, lineStart: nat, lo: nat, hi: nat)
    requires lineStart % 16 == 0 && lineStart <= lo <= hi <= lineStart + 15
    ensures Pieces(data, begin, end, lo, hi) == Cells(data, begin, end, lo, hi)
  {
    forall p | lo <= p < hi
      ensures PieceAt(data, begin, end)(p) == CellAt(data, begin, end)(p)
    {
      ColumnOfLine(lineStart, p - lineStart);
      assert Piece(data, begin, end, p) == Cell(data, begin, end, p) + "";
    }
    RunAgree(PieceAt(data, begin, end), CellAt(data, begin, end), lo, hi);
  }

  /** The rest of a line from position lo on: its cells and then the line's end. */
  lemma LineTail(data: seq<Byte>, begin: nat, end: nat, lineStart: nat, lo: nat)
    requires lineStart % 16 == 0 && lineStart <= lo <= lineStart + 15
    ensures Concat(Pieces(data, begin, end, lo, lineStart + 16))
      == Concat(Cells(data, begin, end, lo, lineStart + 16)) + LineEnd(lineStart / 16)
  {
    var last := lineStart + 15;
    var cells, cell := Cells(data, begin, end, lo, last), Cell(data, begin, end, last);
    PiecesBeforeLineEnd(data, begin, end, lineStart, lo, last);
    PiecesSnoc(data, begin, end, lo, last);
    CellsSnoc(data, begin, end, lo, last);
    assert last + 1 == lineStart + 16;
    ColumnOfLine(lineStart, 15);
    ConcatSnoc(cells, cell + LineEnd(lineStart / 16));
    ConcatSnoc(cells, cell);
    Append(Concat(cells), cell, LineEnd(lineStart / 16));
  }

  /** Cells lo..hi - 1 take 3 (hi - lo) characters. */
  lemma CellsLength(data: seq<Byte>, begin: nat, end: nat, lo: nat, hi: nat)
    ensures |Concat(Cells(data, begin, end, lo, hi))| == if hi <= lo then 0 else 3 * (hi - lo)
  {
    RunOfTriples(CellAt(data, begin, end), lo, hi, 0);
  }

  /** Cell lo + k starts at character 3k, with its separator. */
  lemma CellsSeparator(data: seq<Byte>, begin: nat, end: nat, lo: nat, hi: nat, k: nat)
    requires lo + k < hi
    ensures |Concat(Cells(data, begin, end, lo, hi))| == 3 * (hi - lo)
    ensures Concat(Cells(data, begin, end, lo, hi))[3 * k] == Separator(lo + k)
  {
    RunOfTriples(CellAt(data, begin, end), lo, hi, k);
    assert CellAt(data, begin, end)(lo + k) == Cell(data, begin, end, lo + k);
  }

  /** The dump's positions: those before begin, the range, and those after it. */
  lemma DumpParts(data: seq<Byte>, begin: nat, end: nat, start: nat, stop: nat)
    requires start <= begin <= end <= stop
    ensures Concat(Pieces(data, begin, end, start, stop))
      == Concat(Pieces(data, begin, end, start, begin)) + Concat(Pieces(data, begin, end, begin, end))
        + Concat(Pieces(data, begin, end, end, stop))
  {
    var before, range, after := Pieces(data, begin, end, start, begin), Pieces(data, begin, end, begin, end), Pieces(data, begin, end, end, stop);
    PiecesSplit(data, begin, end, start, begin, stop);
    PiecesSplit(data, begin, end, begin, end, stop);
    ConcatAppend(before, range + after);
    ConcatAppend(range, after);
    Append(Concat(before), Concat(range), Concat(after));
  }

  /** DumpParts for the lines the dump of [begin, end) covers. */
  lemma DumpLayout(data: seq<Byte>, begin: nat, end: nat)
    requires begin <= end
    ensures Concat(Pieces(data, begin, end, begin - begin % 16, LineBoundary(end)))
      == Concat(Pieces(data, begin, end, begin - begin % 16, begin)) + Concat(Pieces(data, begin, end, begin, end))
        + Concat(Pieces(data, begin, end, end, LineBoundary(end)))
  {
    DumpParts(data, begin, end, begin - begin % 16, LineBoundary(end));
  }

  // Properties of the dump.

  /** An empty (or reversed) range prints only the header, with begin clamped to end. */
  lemma EmptyRangePrintsHeader(data: seq<Byte>, begin: nat, end: nat, name: string)
    requires end <= begin
    ensures Dump(data, begin, end, name) == Header(name, end, end)
  {
  }

  /** A non-empty range prints the header and then its whole lines. */
  lemma NonEmptyRange(data: seq<Byte>, begin: nat, end: nat, name: string)
    requires begin < end
    ensures Dump(data, begin, end, name)
      == Header(name, begin, end) + Concat(Pieces(data, begin, end, begin - begin % 16, LineBoundary(end)))
  {
  }

  /**
   * Every line of the dump is sixteen three-character cells, opening with
   * '|' at columns 0 and 8, and then the line's end carrying its number.
   */
  lemma LineShape(data: seq<Byte>, begin: nat, end: nat, lineStart: nat)
    requires lineStart % 16 == 0
    ensures Concat(Pieces(data, begin, end, lineStart, lineStart + 16))
      == Concat(Cells(data, begin, end, lineStart, lineStart + 16)) + LineEnd(lineStart / 16)
    ensures |Concat(Cells(data, begin, end, lineStart, lineStart + 16))| == 48
    ensures Concat(Cells(data, begin, end, lineStart, lineStart + 16))[0] == '|'
    ensures Concat(Cells(data, begin, end, lineStart, lineStart + 16))[24] == '|'
  {
    LineTail(data, begin, end, lineStart, lineStart);
    CellsLength(data, begin, end, lineStart, lineStart + 16);
    CellsSeparator(data, begin, end, lineStart, lineStart + 16, 0);
    CellsSeparator(data, begin, end, lineStart, lineStart + 16, 8);
    ColumnOfLine(lineStart, 8);
  }

  /**
   * A position inside the range shows its byte as two hexadecimal digits
   * that read back as the byte; a position outside shows two blanks.
   */
  lemma CellShowsByte(data: seq<Byte>, begin: nat, end: nat, p: nat)
    requires begin <= p < end ==> p < |data|
    ensures begin <= p < end ==> Cell(data, begin, end, p)[1..] == HexByte(data[p])
    ensures begin <= p < end ==> DigitsToNat(Cell(data, begin, end, p)[1..], 16) == data[p]
    ensures !(begin <= p < end) ==> Cell(data, begin, end, p)[1..] == "  "
  {
    if begin <= p < end {
      HexByteRoundTrip(data[p]);
      assert Cell(data, begin, end, p)[1..] == HexByte(data[p]);
    } else {
      assert Cell(data, begin, end, p)[1..] == "  ";
    }
  }
}
