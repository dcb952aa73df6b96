/** The `line` buffer the tables are printed through, cell by cell. */
module Printer {
  import opened Words
  import opened Output
  import opened Table

  class Line {
    const buf: array<char>
    var pos: nat

    ghost predicate Valid()
      reads this, buf
    {
      buf.Length == CAPACITY && pos <= CAPACITY
    }

    ghost function Contents(): string
      requires Valid()
      reads this, buf
    {
      buf[..pos]
    }

    constructor ()
      ensures Valid() && fresh(buf) && Contents() == ""
    {
      buf := new char[CAPACITY];
      pos := 0;
    }

    method Blanks(upTo: nat)
      requires Valid() && upTo <= CAPACITY
      modifies this`pos, buf
      ensures Valid() && Contents() == old(Contents()) + Spaces(PadRight(old(pos), upTo))
    {
      ghost var before, start := Contents(), pos;
      while pos < upTo
        invariant Valid() && start <= pos && (pos <= upTo || pos == start)
        invariant Contents() == before + Spaces(pos - start)
      {
        buf[pos] := ' ';
        pos := pos + 1;
      }
    }

    method PadTo(endCol: nat, written: nat)
      requires Valid() && pos + Padding(pos, endCol, written) <= CAPACITY
      modifies this`pos, buf
      ensures Valid() && Contents() == old(Contents()) + Spaces(Padding(old(pos), endCol, written))
    {
      var want := if endCol >= written then endCol - written else 0;
      if want < pos {
        ghost var before := Contents();
        buf[pos] := ' ';
        pos := pos + 1;
        assert Contents() == before + Spaces(1);
      } else {
        Blanks(want);
      }
    }

    method Write(text: string)
      requires Valid() && pos + |text| <= CAPACITY
      modifies this`pos, buf
      ensures Valid() && Contents() == old(Contents()) + text
    {
      pos := CopyText(text, buf, pos);
    }

    method SAt(text: string, endCol: nat)
      requires Valid() && |AddCell(Contents(), Right(text, endCol))| <= CAPACITY
      modifies this`pos, buf
      ensures Valid() && Contents() == AddCell(old(Contents()), Right(text, endCol))
    {
      PadTo(endCol, |text|);
      Write(text);
    }

    method SLjAt(text: string, endCol: nat)
      requires Valid() && |AddCell(Contents(), Left(text, endCol))| <= CAPACITY
      modifies this`pos, buf
      ensures Valid() && Contents() == AddCell(old(Contents()), Left(text, endCol))
    {
      Write(text);
      if pos < endCol {
        Blanks(endCol);
      }
    }

    /** Emits n characters of t from last to first. */
    method WriteBackward(t: array<char>, n: nat)
      requires Valid() && n <= t.Length && t != buf && pos + n <= CAPACITY
      modifies this`pos, buf
      ensures Valid() && Contents() == old(Contents()) + Reverse(t[..n])
    {
      ghost var before, r := Contents(), Reverse(t[..n]);
      var k := n;
      while k > 0
        invariant k <= n && Valid() && pos == |before| + n - k
        invariant Contents() == before + r[..n - k]
      {
        k := k - 1;
        buf[pos] := t[k];
        pos := pos + 1;
        assert t[k] == r[n - 1 - k];
      }
      assert r[..n] == r;
    }

    method UAt(v: nat, endCol: nat)
      requires Valid() && v < WORD && |AddCell(Contents(), Right(Dec(v), endCol))| <= CAPACITY
      modifies this`pos, buf
      ensures Valid() && Contents() == AddCell(old(Contents()), Right(Dec(v), endCol))
    {
      DecFits(v);
      var tmp := new char[24];
      var n := Digits(v, tmp);
      PadTo(endCol, n);
      WriteBackward(tmp, n);
    }

    method F2At(h: nat, endCol: nat)
      requires Valid() && h / 100 < WORD && |AddCell(Contents(), Right(Fixed(h), endCol))| <= CAPACITY
      modifies this`pos, buf
      ensures Valid() && Contents() == AddCell(old(Contents()), Right(Fixed(h), endCol))
    {
      hide Dec, Fixed, AddCell, Padding, Reverse, Digit;
      DecFits(h / 100);
      FixedCell(Contents(), h, endCol);
      var tmp := new char[24];
      var n := Digits(h / 100, tmp);
      PadTo(endCol, n + 3);
      WriteBackward(tmp, n);
      Write(".");
      Write([Digit(h % 100 / 10)]);
      Write([Digit(h % 100 % 10)]);
    }
  }

  lemma FixedCell(line: string, h: nat, col: nat)
    ensures AddCell(line, Right(Fixed(h), col)) ==
            line + Spaces(Padding(|line|, col, |Dec(h / 100)| + 3)) + Dec(h / 100) + "." +
            [Digit(h % 100 / 10)] + [Digit(h % 100 % 10)]
  {
    hide Dec, Padding;
    assert |Fixed(h)| == |Dec(h / 100)| + 3;
  }

  lemma {:induction false} RenderGrows(line: string, cells: seq<Cell>, k: nat)
    requires k < |cells|
    ensures |AddCell(Render(line, cells[..k]), cells[k])| <= |Render(line, cells)|
    ensures Render(line, cells[..k + 1]) == AddCell(Render(line, cells[..k]), cells[k])
    decreases |cells|
  {
    var n := |cells| - 1;
    assert cells[..k + 1][..k] == cells[..k];
    if k == n {
      assert cells[..k + 1] == cells;
    } else {
      assert cells[..n][..k] == cells[..k];
      RenderGrows(line, cells[..n], k);
    }
  }

  /** Numbers are 64-bit, and the names are short or the line fits anyway. */
  predicate Printable(r: MtRow) {
    && r.thr < WORD && r.total < WORD && r.mops / 100 < WORD && r.scaling / 100 < WORD && r.cycop / 100 < WORD
    && (r.ratio.Some? ==> r.ratio.value / 100 < WORD) && r.ipc / 100 < WORD && r.bmiss / 100 < WORD
    && ((|r.impl| <= 23 && |r.cat| <= 23) || |Render("  ", MtCells(r))| < CAPACITY)
  }

  predicate StPrintable(r: StRow) {
    && r.count < WORD && r.ops < WORD && r.cycop / 100 < WORD && r.nsop / 100 < WORD && r.mops / 100 < WORD
    && r.ipc / 100 < WORD && r.bmiss / 100 < WORD && (r.ratio.Some? ==> r.ratio.value / 100 < WORD)
    && ((|r.impl| <= 23 && |r.cat| <= 23 && |r.phase| <= 23) || |Render("  ", StCells(r))| < CAPACITY)
  }

  /** Names of up to 23 letters never overrun the 384-byte buffer, whatever the numbers. */
  lemma MtLineFits(r: MtRow)
    requires Printable(r)
    ensures |Render("  ", MtCells(r))| < CAPACITY
  {
    hide Render, Dec, Fixed;
    if |r.impl| <= 23 && |r.cat| <= 23 {
      DecFits(r.thr);
      DecFits(r.total);
      FixedFits(r.mops);
      FixedFits(r.scaling);
      FixedFits(r.cycop);
      if r.ratio.Some? { FixedFits(r.ratio.value); }
      FixedFits(r.ipc);
      FixedFits(r.bmiss);
      LineFits("  ", MtCells(r));
    }
  }

  lemma StLineFits(r: StRow)
    requires StPrintable(r)
    ensures |Render("  ", StCells(r))| < CAPACITY
  {
    hide Render, Dec, Fixed;
    if |r.impl| <= 23 && |r.cat| <= 23 && |r.phase| <= 23 {
      DecFits(r.count);
      DecFits(r.ops);
      FixedFits(r.cycop);
      FixedFits(r.nsop);
      FixedFits(r.mops);
      FixedFits(r.ipc);
      FixedFits(r.bmiss);
      if r.ratio.Some? { FixedFits(r.ratio.value); }
      LineFits("  ", StCells(r));
    }
  }

  /** The line holds the first k cells. */
  ghost predicate Shows(ln: Line, cells: seq<Cell>, k: nat)
    requires k <= |cells|
    reads ln, ln.buf
  {
    ln.Valid() && ln.Contents() == Render("  ", cells[..k])
  }

  /** The beginning that all rows share. */
  method PrintNames(impl: string, cat: string, ghost cells: seq<Cell>) returns (ln: Line)
    requires |cells| >= 2 && cells[0] == Left(impl, 10) && cells[1] == Left(cat, 18)
    requires |Render("  ", cells)| < CAPACITY
    ensures fresh(ln) && fresh(ln.buf) && Shows(ln, cells, 2)
  {
    hide Render, AddCell;
    ln := new Line();
    TwoBlanks(cells);
    ln.SLjAt("  ", 2);
    RenderGrows("  ", cells, 0);
    ln.SLjAt(impl, 10);
    assert Shows(ln, cells, 1);
    RenderGrows("  ", cells, 1);
    ln.SLjAt(cat, 18);
  }

  /** A row of the multi-threaded throughput table as printed. */
  method PrintMtRow(r: MtRow) returns (text: string)
    requires Printable(r)
    ensures text == Render("  ", MtCells(r))
  {
    hide Render, AddCell, Dec, Fixed;
    MtLineFits(r);
    var cells := MtCells(r);
    var ln := PrintNames(r.impl, r.cat, cells);
    RenderGrows("  ", cells, 2);
    ln.UAt(r.thr, 25);
    assert Shows(ln, cells, 3);
    RenderGrows("  ", cells, 3);
    ln.UAt(r.total, 37);
    assert Shows(ln, cells, 4);
    PrintMtFloats(ln, r);
    text := ln.buf[..ln.pos];
  }

  lemma TwoBlanks(cells: seq<Cell>)
    ensures AddCell("", Left("  ", 2)) == "  " == Render("  ", cells[..0])
  {
  }

  method PrintMtFloats(ln: Line, r: MtRow)
    requires Printable(r) && Shows(ln, MtCells(r), 4)
    modifies ln`pos, ln.buf
    ensures ln.Valid() && ln.Contents() == Render("  ", MtCells(r))
  {
    hide Render, AddCell, Dec, Fixed;
    MtLineFits(r);
    var cells := MtCells(r);
    RenderGrows("  ", cells, 4);
    ln.F2At(r.mops, 49);
    assert Shows(ln, cells, 5);
    RenderGrows("  ", cells, 5);
    ln.F2At(r.scaling, 59);
    assert Shows(ln, cells, 6);
    RenderGrows("  ", cells, 6);
    ln.F2At(r.cycop, 70);
    assert Shows(ln, cells, 7);
    var k := 7;
    if r.ratio.Some? {
      RenderGrows("  ", cells, 7);
      ln.F2At(r.ratio.value, 78);
      k := 8;
    }
    assert Shows(ln, cells, k);
    RenderGrows("  ", cells, k);
    ln.F2At(r.ipc, 86);
    assert Shows(ln, cells, k + 1);
    RenderGrows("  ", cells, k + 1);
    ln.F2At(r.bmiss, 95);
    assert cells[..k + 2] == cells;
  }

  /** A row of the single-threaded throughput table as printed. */
  method PrintStRow(r: StRow) returns (text: string)
    requires StPrintable(r)
    ensures text == Render("  ", StCells(r))
  {
    hide Render, AddCell, Dec, Fixed;
    StLineFits(r);
    var cells := StCells(r);
    var ln := PrintNames(r.impl, r.cat, cells);
    RenderGrows("  ", cells, 2);
    ln.SAt(r.phase, 27);
    assert Shows(ln, cells, 3);
    RenderGrows("  ", cells, 3);
    ln.UAt(r.count, 37);
    assert Shows(ln, cells, 4);
    RenderGrows("  ", cells, 4);
    ln.UAt(r.ops, 48);
    assert Shows(ln, cells, 5);
    PrintStFloats(ln, r);
    text := ln.buf[..ln.pos];
  }

  method PrintStFloats(ln: Line, r: StRow)
    requires StPrintable(r) && Shows(ln, StCells(r), 5)
    modifies ln`pos, ln.buf
    ensures ln.Valid() && ln.Contents() == Render("  ", StCells(r))
  {
    hide Render, AddCell, Dec, Fixed;
    StLineFits(r);
    var cells := StCells(r);
    RenderGrows("  ", cells, 5);
    ln.F2At(r.cycop, 59);
    assert Shows(ln, cells, 6);
    RenderGrows("  ", cells, 6);
    ln.F2At(r.nsop, 69);
    assert Shows(ln, cells, 7);
    RenderGrows("  ", cells, 7);
    ln.F2At(r.mops, 81);
    assert Shows(ln, cells, 8);
    RenderGrows("  ", cells, 8);
    ln.F2At(r.ipc, 89);
    assert Shows(ln, cells, 9);
    RenderGrows("  ", cells, 9);
    ln.F2At(r.bmiss, 98);
    assert Shows(ln, cells, 10);
    if r.ratio.Some? {
      RenderGrows("  ", cells, 10);
      ln.F2At(r.ratio.value, 106);
      assert cells[..11] == cells;
    } else {
      assert cells[..10] == cells;
    }
  }
}
