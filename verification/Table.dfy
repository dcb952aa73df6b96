/** The column printer of the allocator benches and the reader that plots its tables. */
module Table {
  import opened Options
  import opened Output
  import opened Words

  const CAPACITY: nat := 384

  // ----- cells as strings -----

  function Spaces(n: nat): (s: string)
    ensures |s| == n && forall i :: 0 <= i < n ==> s[i] == ' '
  {
    seq(n, _ => ' ')
  }

  /** Blanks `pad_to` writes at column pos before a text of the given width: one when the
      column is already passed, none when the text would start exactly at pos. */
  function Padding(pos: nat, endCol: nat, width: nat): nat {
    var want := if endCol >= width then endCol - width else 0;
    if want < pos then 1 else want - pos
  }

  /** A text that fits ends on its column; one that does not gets a single blank before it. */
  lemma PaddingMeaning(pos: nat, endCol: nat, width: nat)
    ensures pos + width <= endCol ==> pos + Padding(pos, endCol, width) + width == endCol
    ensures pos + width > endCol ==> Padding(pos, endCol, width) == if pos > 0 then 1 else 0
  {
  }

  /** A cell ends at its column (Right) or is filled up to it (Left). */
  datatype Cell = Left(text: string, col: nat) | Right(text: string, col: nat)

  function PadRight(pos: nat, col: nat): nat {
    if pos < col then col - pos else 0
  }

  function AddCell(line: string, c: Cell): string {
    match c
    case Left(text, col) => line + text + Spaces(PadRight(|line| + |text|, col))
    case Right(text, col) => line + Spaces(Padding(|line|, col, |text|)) + text
  }

  function Render(line: string, cells: seq<Cell>): string {
    if cells == [] then line else AddCell(Render(line, cells[..|cells| - 1]), cells[|cells| - 1])
  }

  function Texts(cells: seq<Cell>): (t: seq<string>)
    ensures |t| == |cells| && forall k :: 0 <= k < |cells| ==> t[k] == cells[k].text
  {
    seq(|cells|, k requires 0 <= k < |cells| => cells[k].text)
  }

  // ----- splitting on whitespace -----

  /** Python's `str.isspace` for one character. */
  predicate IsSpace(c: char) {
    || '\t' <= c <= '\r' || '\U{1C}' <= c <= ' ' || c == '\U{85}' || c == '\U{A0}' || c == '\U{1680}'
    || '\U{2000}' <= c <= '\U{200A}' || c == '\U{2028}' || c == '\U{2029}' || c == '\U{202F}'
    || c == '\U{205F}' || c == '\U{3000}'
  }

  /** The line ends inside a token. */
  predicate Open(s: string) {
    s != [] && !IsSpace(s[|s| - 1])
  }

  function Lengthen(t: seq<string>, w: string): seq<string>
    requires t != []
  {
    t[..|t| - 1] + [t[|t| - 1] + w]
  }

  /** Python's `str.split()`: the maximal runs of non-blank characters. */
  function Tokens(s: string): (t: seq<string>)
    ensures Open(s) ==> t != []
  {
    if s == [] then []
    else
      var init, c := s[..|s| - 1], s[|s| - 1];
      var t := Tokens(init);
      if IsSpace(c) then t
      else if Open(init) then Lengthen(t, [c])
      else t + [[c]]
  }

  lemma {:induction false} TokensBlank(s: string, n: nat)
    ensures Tokens(s + Spaces(n)) == Tokens(s)
    ensures Open(s + Spaces(n)) <==> Open(s) && n == 0
    decreases n
  {
    hide Tokens, Open;
    if n == 0 {
      assert s + Spaces(0) == s;
    } else {
      TokensBlank(s, n - 1);
      TokensSpace(s + Spaces(n - 1));
      assert s + Spaces(n) == s + Spaces(n - 1) + [' '];
    }
  }

  lemma TokensSpace(s: string)
    ensures Tokens(s + [' ']) == Tokens(s) && !Open(s + [' '])
  {
    assert (s + [' '])[..|s|] == s;
  }

  predicate Word(w: string) {
    w != [] && forall i :: 0 <= i < |w| ==> !IsSpace(w[i])
  }

  lemma TokensChar(s: string, c: char)
    requires !IsSpace(c)
    ensures Open(s + [c])
    ensures Tokens(s + [c]) == if Open(s) then Lengthen(Tokens(s), [c]) else Tokens(s) + [[c]]
  {
    assert (s + [c])[..|s|] == s;
  }

  lemma LengthenLast(t: seq<string>, w: string, c: char)
    ensures Lengthen(t + [w], [c]) == t + [w + [c]]
    ensures t != [] ==> Lengthen(Lengthen(t, w), [c]) == Lengthen(t, w + [c])
  {
    assert (t + [w])[..|t|] == t;
    if t != [] {
      var u := Lengthen(t, w);
      assert u[..|t| - 1] == t[..|t| - 1] && u[|t| - 1] == t[|t| - 1] + w;
      assert t[|t| - 1] + w + [c] == t[|t| - 1] + (w + [c]);
    }
  }

  /** A word after a blank is a token of its own; after a token it lengthens that one. */
  lemma {:induction false} TokensWord(s: string, w: string)
    requires Word(w)
    ensures Open(s + w)
    ensures Tokens(s + w) == if Open(s) then Lengthen(Tokens(s), w) else Tokens(s) + [w]
    decreases |w|
  {
    hide Tokens, Open, Lengthen;
    var init, c := w[..|w| - 1], w[|w| - 1];
    assert init + [c] == w;
    if init == [] {
      assert w == [c];
      TokensChar(s, c);
    } else {
      TokensWord(s, init);
      TokensChar(s + init, c);
      LengthenLast(Tokens(s), init, c);
      assert s + init + [c] == s + w;
    }
  }

  // ----- when a printed row splits into its cells -----

  /** c does not run into what is already on the line. */
  predicate Separate(line: string, c: Cell) {
    !Open(line) || (c.Right? && Padding(|line|, c.col, |c.text|) > 0)
  }

  /** Cursor after the cells, from their widths alone. */
  function Cursor(pos: nat, cells: seq<Cell>): nat {
    if cells == [] then pos
    else
      var p, c := Cursor(pos, cells[..|cells| - 1]), cells[|cells| - 1];
      match c
      case Left(text, col) => p + |text| + PadRight(p + |text|, col)
      case Right(text, col) => p + Padding(p, col, |text|) + |text|
  }

  /** The last cell has no blank after it: it is right-justified, or it fills its column. */
  predicate Flush(pos: nat, cells: seq<Cell>) {
    cells != [] &&
    var c := cells[|cells| - 1];
    c.Right? || c.col <= Cursor(pos, cells[..|cells| - 1]) + |c.text|
  }

  /** c starts right behind a flush cell.  A right-justified cell does so exactly when its text
      fits the room between cursor and column to the character. */
  predicate Touches(pos: nat, init: seq<Cell>, c: Cell) {
    Flush(pos, init) && (c.Left? || Padding(Cursor(pos, init), c.col, |c.text|) == 0)
  }

  predicate NoTouch(pos: nat, cells: seq<Cell>) {
    cells == [] ||
    var init, c := cells[..|cells| - 1], cells[|cells| - 1];
    NoTouch(pos, init) && !Touches(pos, init, c)
  }

  /** The texts, with touching ones run together. */
  function Joined(pos: nat, cells: seq<Cell>): (t: seq<string>)
    ensures cells != [] ==> t != []
  {
    if cells == [] then []
    else
      var init, c := cells[..|cells| - 1], cells[|cells| - 1];
      if Touches(pos, init, c) then Lengthen(Joined(pos, init), c.text) else Joined(pos, init) + [c.text]
  }

  predicate WordCells(cells: seq<Cell>) {
    forall k :: 0 <= k < |cells| ==> Word(cells[k].text)
  }

  lemma CellTokens(line: string, c: Cell)
    requires Word(c.text)
    ensures Tokens(AddCell(line, c)) ==
            if Separate(line, c) then Tokens(line) + [c.text] else Lengthen(Tokens(line), c.text)
  {
    hide Tokens, Open, Word, Padding, PadRight, Lengthen;
    match c
    case Left(text, col) =>
      TokensWord(line, text);
      TokensBlank(line + text, PadRight(|line| + |text|, col));
    case Right(text, col) =>
      TokensBlank(line, Padding(|line|, col, |text|));
      TokensWord(line + Spaces(Padding(|line|, col, |text|)), text);
  }

  /** Widths tell where a line ends and whether it ends in a token. */
  lemma {:induction false} CursorExact(line: string, cells: seq<Cell>)
    requires WordCells(cells) && Tokens(line) == []
    ensures |Render(line, cells)| == Cursor(|line|, cells)
    ensures Open(Render(line, cells)) <==> Flush(|line|, cells)
    decreases |cells|
  {
    if cells != [] {
      var init, c := cells[..|cells| - 1], cells[|cells| - 1];
      assert WordCells(init) && Word(c.text);
      CursorExact(line, init);
      var before := Render(line, init);
      match c
      case Left(text, col) =>
        TokensWord(before, text);
        TokensBlank(before + text, PadRight(|before| + |text|, col));
      case Right(text, col) =>
        TokensWord(before + Spaces(Padding(|before|, col, |text|)), text);
    }
  }

  /** What the reader gets from any printed row: the texts, touching ones run together. */
  lemma {:induction false} RowTokens(line: string, cells: seq<Cell>)
    requires WordCells(cells) && Tokens(line) == []
    ensures Tokens(Render(line, cells)) == Joined(|line|, cells)
    decreases |cells|
  {
    hide Padding, PadRight, Tokens, Cursor, Flush, Open, Lengthen;
    if cells != [] {
      var init, c := cells[..|cells| - 1], cells[|cells| - 1];
      assert WordCells(init);
      RowTokens(line, init);
      CursorExact(line, init);
      CellTokens(Render(line, init), c);
    }
  }

  function MergedAt(t: seq<string>, j: nat): seq<string>
    requires j + 1 < |t|
  {
    t[..j] + [t[j] + t[j + 1]] + t[j + 2..]
  }

  ghost predicate OneMerge(t: seq<string>, u: seq<string>) {
    exists j: nat :: j + 1 < |t| && u == MergedAt(t, j)
  }

  /** As many tokens as cells mean that nothing touches; one fewer, that one pair does. */
  lemma {:induction false} JoinedCount(pos: nat, cells: seq<Cell>)
    ensures |Joined(pos, cells)| <= |cells|
    ensures NoTouch(pos, cells) <==> |Joined(pos, cells)| == |cells|
    ensures NoTouch(pos, cells) <==> Joined(pos, cells) == Texts(cells)
    ensures |Joined(pos, cells)| == |cells| - 1 ==> OneMerge(Texts(cells), Joined(pos, cells))
    decreases |cells|
  {
    hide OneMerge, Cursor, Padding;
    if cells != [] {
      var init, c := cells[..|cells| - 1], cells[|cells| - 1];
      JoinedCount(pos, init);
      assert Texts(cells) == Texts(init) + [c.text];
      if Touches(pos, init, c) {
        if NoTouch(pos, init) { LastMerges(Texts(init), c.text); }
      } else if |Joined(pos, init)| == |init| - 1 {
        MergeExtends(Texts(init), Joined(pos, init), c.text);
      }
    } else {
      assert Texts(cells) == [];
    }
  }

  lemma LastMerges(t: seq<string>, w: string)
    ensures t != [] ==> OneMerge(t + [w], Lengthen(t, w))
  {
    if t != [] {
      assert Lengthen(t, w) == MergedAt(t + [w], |t| - 1);
    }
  }

  lemma MergeExtends(t: seq<string>, u: seq<string>, w: string)
    requires OneMerge(t, u)
    ensures OneMerge(t + [w], u + [w])
  {
    var j: nat :| j + 1 < |t| && u == MergedAt(t, j);
    assert u + [w] == MergedAt(t + [w], j);
  }

  /** The reader recovers exactly the printed cells if and only if no two cells touch. */
  lemma RowSplits(line: string, cells: seq<Cell>)
    requires WordCells(cells) && Tokens(line) == []
    ensures Tokens(Render(line, cells)) == Texts(cells) <==> NoTouch(|line|, cells)
  {
    RowTokens(line, cells);
    JoinedCount(|line|, cells);
  }

  lemma {:induction false} NoTouchPrefix(pos: nat, cells: seq<Cell>, k: nat)
    requires NoTouch(pos, cells) && k <= |cells|
    ensures NoTouch(pos, cells[..k])
    decreases |cells|
  {
    if k < |cells| {
      NoTouchPrefix(pos, cells[..|cells| - 1], k);
      assert cells[..|cells| - 1][..k] == cells[..k];
    } else {
      assert cells[..k] == cells;
    }
  }

  // ----- the same from columns and widths -----

  /** From cell n on every text leaves a blank before it. */
  predicate NarrowFrom(cells: seq<Cell>, n: nat) {
    forall k :: 0 < n <= k < |cells| ==> cells[k].Right? && cells[k - 1].col + |cells[k].text| < cells[k].col
  }

  /** Column at which cell k may start. */
  function StartCol(pos: nat, cells: seq<Cell>, k: nat): nat
    requires k <= |cells|
  {
    if k == 0 then pos else cells[k - 1].col
  }

  predicate Fits(pos: nat, cells: seq<Cell>) {
    forall k :: 0 <= k < |cells| ==> StartCol(pos, cells, k) + |cells[k].text| <= cells[k].col
  }

  /** Cell k has a blank before it or is first. */
  predicate Apart(pos: nat, cells: seq<Cell>, k: nat)
    requires k < |cells|
  {
    || k == 0
    || (cells[k - 1].Left? && StartCol(pos, cells, k - 1) + |cells[k - 1].text| < cells[k - 1].col)
    || (cells[k].Right? && cells[k - 1].col + |cells[k].text| < cells[k].col)
  }

  /** A text that fits leaves the cursor on its column. */
  lemma CursorStep(p: nat, width: nat, col: nat)
    requires p + width <= col
    ensures p + width + PadRight(p + width, col) == col
    ensures p + Padding(p, col, width) + width == col
    ensures Padding(p, col, width) == 0 <==> p + width == col
  {
  }

  lemma {:induction false} FitsCursor(pos: nat, cells: seq<Cell>, n: nat)
    requires Fits(pos, cells) && n <= |cells|
    ensures Cursor(pos, cells[..n]) == StartCol(pos, cells, n)
  {
    hide PadRight, Padding, Fits;
    if n > 0 {
      FitsAt(pos, cells, n - 1);
      FitsCursor(pos, cells, n - 1);
      assert cells[..n][..n - 1] == cells[..n - 1];
      CursorStep(StartCol(pos, cells, n - 1), |cells[n - 1].text|, cells[n - 1].col);
    }
  }

  lemma TouchesNext(pos: nat, cells: seq<Cell>, n: nat)
    requires Fits(pos, cells) && n < |cells|
    ensures Touches(pos, cells[..n], cells[n]) <==> !Apart(pos, cells, n)
  {
    hide Cursor, Padding, PadRight, Fits;
    FitsAt(pos, cells, n);
    FitsCursor(pos, cells, n);
    CursorStep(StartCol(pos, cells, n), |cells[n].text|, cells[n].col);
    if n > 0 {
      FitsAt(pos, cells, n - 1);
      FitsCursor(pos, cells, n - 1);
      assert cells[..n][..n - 1] == cells[..n - 1];
    }
  }

  lemma FitsAt(pos: nat, cells: seq<Cell>, n: nat)
    requires Fits(pos, cells) && n < |cells|
    ensures StartCol(pos, cells, n) + |cells[n].text| <= cells[n].col
  {
  }

  predicate ApartUpTo(pos: nat, cells: seq<Cell>, n: nat)
    requires n <= |cells|
  {
    forall k :: 0 <= k < n ==> Apart(pos, cells, k)
  }

  lemma {:induction false} FittingPrefix(pos: nat, cells: seq<Cell>, n: nat)
    requires Fits(pos, cells) && n <= |cells|
    ensures NoTouch(pos, cells[..n]) <==> ApartUpTo(pos, cells, n)
  {
    hide Touches, Apart, Fits;
    if n > 0 {
      FittingPrefix(pos, cells, n - 1);
      TouchesNext(pos, cells, n - 1);
      assert cells[..n][..n - 1] == cells[..n - 1];
    }
  }

  /** Where every text fits its column, the columns and widths alone decide what touches. */
  lemma FittingRows(pos: nat, cells: seq<Cell>)
    requires Fits(pos, cells)
    ensures NoTouch(pos, cells) <==> ApartUpTo(pos, cells, |cells|)
  {
    FittingPrefix(pos, cells, |cells|);
    assert cells[..|cells|] == cells;
  }

  // ----- numbers in cells -----

  /** `to_fmt2`: a measurement in hundredths, rounded half up; negative reads as 0. */
  function Hundredths(v: real): (h: nat)
    ensures Near(h, v)
  {
    if v < 0.0 then 0 else (v * 100.0 + 0.5).Floor
  }

  /** h hundredths are within half a hundredth of v, taken as 0 when negative. */
  predicate Near(h: nat, v: real) {
    if v < 0.0 then h == 0 else h as real - 0.5 <= v * 100.0 <= h as real + 0.5
  }

  /** What `f2_at` prints for h hundredths. */
  function Fixed(h: nat): string {
    Dec(h / 100) + "." + [Digit(h % 100 / 10), Digit(h % 100 % 10)]
  }

  predicate AllDigits(s: string) {
    forall i :: 0 <= i < |s| ==> IsDigit(s[i])
  }

  function IntOf(s: string): Option<nat> {
    if s != [] && AllDigits(s) then Some(Value(s)) else None
  }

  /** Reads a token with two decimals, in hundredths. */
  function FixedOf(s: string): Option<nat> {
    if |s| >= 4 && s[|s| - 3] == '.' && AllDigits(s[..|s| - 3]) && AllDigits(s[|s| - 2..])
    then Some(100 * Value(s[..|s| - 3]) + Value(s[|s| - 2..]))
    else None
  }

  lemma IntReads(v: nat)
    ensures Word(Dec(v)) && IntOf(Dec(v)) == Some(v)
  {
    ValueOfDec(v);
  }

  lemma PairValue(a: nat, b: nat)
    requires a < 10 && b < 10
    ensures var f := [Digit(a), Digit(b)];
            AllDigits(f) && Value(f) == 10 * a + b
  {
    var f := [Digit(a), Digit(b)];
    assert f[..1] == [f[0]] && f[..1][..0] == [];
    assert Value(f) == 10 * Value(f[..1]) + DigitValue(f[1]);
    assert Value(f[..1]) == DigitValue(f[0]);
  }

  lemma LastDigits(r: nat)
    ensures 10 * (r / 10) + r % 10 == r
  {
  }

  lemma TwoDigits(h: nat)
    ensures var f := [Digit(h % 100 / 10), Digit(h % 100 % 10)];
            AllDigits(f) && Value(f) == h % 100
  {
    hide Value, AllDigits, Digit;
    LastDigits(h % 100);
    PairValue(h % 100 / 10, h % 100 % 10);
  }

  lemma FixedReads(h: nat)
    ensures Word(Fixed(h)) && FixedOf(Fixed(h)) == Some(h)
  {
    hide Dec, Value;
    var s, w, f := Fixed(h), Dec(h / 100), [Digit(h % 100 / 10), Digit(h % 100 % 10)];
    assert s == w + "." + f && |s| == |w| + 3;
    assert s[..|s| - 3] == w && s[|s| - 2..] == f && s[|s| - 3] == '.';
    ValueOfDec(h / 100);
    TwoDigits(h);
  }

  /** No text that ends in a two-decimal number is an integer. */
  lemma FixedNoInt(s: string, h: nat)
    ensures IntOf(s + Fixed(h)) == None
  {
    hide Dec;
    var t := s + Fixed(h);
    assert t[|t| - 3] == '.';
  }

  /** Two two-decimal numbers run together are not one. */
  lemma FixedTwice(a: nat, b: nat)
    ensures FixedOf(Fixed(a) + Fixed(b)) == None
  {
    hide Dec;
    var t, k := Fixed(a) + Fixed(b), |Fixed(a)| - 3;
    assert t[k] == '.' && k < |t| - 3;
    assert t[..|t| - 3][k] == '.';
  }

  lemma TwoBlanks()
    ensures Tokens("  ") == []
  {
    TokensBlank("", 2);
    assert "" + Spaces(2) == "  ";
  }

  // ----- rows of the multi-threaded throughput table -----

  datatype MtRow = MtRow(impl: string, cat: string, thr: nat, total: nat, mops: nat, scaling: nat,
                         cycop: nat, ratio: Option<nat>, ipc: nat, bmiss: nat)

  function MtCells(r: MtRow): seq<Cell> {
    [Left(r.impl, 10), Left(r.cat, 18), Right(Dec(r.thr), 25), Right(Dec(r.total), 37),
     Right(Fixed(r.mops), 49), Right(Fixed(r.scaling), 59), Right(Fixed(r.cycop), 70)] +
    (if r.ratio.Some? then [Right(Fixed(r.ratio.value), 78)] else []) +
    [Right(Fixed(r.ipc), 86), Right(Fixed(r.bmiss), 95)]
  }

  /** `_row` for this table: ten tokens or more carry the ratio, fewer do not. */
  function ReadMt(t: seq<string>): Option<MtRow> {
    if |t| < 9 then None
    else
      var thr :- IntOf(t[2]);
      var total :- IntOf(t[3]);
      var mops :- FixedOf(t[4]);
      var scaling :- FixedOf(t[5]);
      var cycop :- FixedOf(t[6]);
      if |t| >= 10 then
        var ratio :- FixedOf(t[7]);
        var ipc :- FixedOf(t[8]);
        var bmiss :- FixedOf(t[9]);
        Some(MtRow(t[0], t[1], thr, total, mops, scaling, cycop, Some(ratio), ipc, bmiss))
      else
        var ipc :- FixedOf(t[7]);
        var bmiss :- FixedOf(t[8]);
        Some(MtRow(t[0], t[1], thr, total, mops, scaling, cycop, None, ipc, bmiss))
  }

  lemma MtTexts(r: MtRow)
    requires Word(r.impl) && Word(r.cat)
    ensures WordCells(MtCells(r)) && ReadMt(Texts(MtCells(r))) == Some(r)
  {
    hide Word, IntOf, FixedOf, Dec, Fixed;
    var head := [r.impl, r.cat, Dec(r.thr), Dec(r.total), Fixed(r.mops), Fixed(r.scaling), Fixed(r.cycop)];
    var tail := [Fixed(r.ipc), Fixed(r.bmiss)];
    assert Texts(MtCells(r)) == head + (if r.ratio.Some? then [Fixed(r.ratio.value)] else []) + tail;
    IntReads(r.thr);
    IntReads(r.total);
    FixedReads(r.mops);
    FixedReads(r.scaling);
    FixedReads(r.cycop);
    FixedReads(r.ipc);
    FixedReads(r.bmiss);
    if r.ratio.Some? { FixedReads(r.ratio.value); }
  }

  lemma MtRefused(u: seq<string>, j: nat)
    requires |u| == 9 && 3 <= j < 9 && (if j == 3 then IntOf(u[3]) else FixedOf(u[j])) == None
    ensures ReadMt(u) == None
  {
    hide IntOf, FixedOf;
  }

  /** With two neighbouring texts run together the integers are out of place. */
  lemma MtMerged(r: MtRow, u: seq<string>)
    requires r.ratio.Some? && OneMerge(Texts(MtCells(r)), u)
    ensures ReadMt(u) == None
  {
    hide IntOf, FixedOf, Dec, Fixed, Texts, ReadMt;
    var t := Texts(MtCells(r));
    var j: nat :| j + 1 < |t| && u == MergedAt(t, j);
    assert |t| == 10;
    if j < 3 {
      assert u[3] == t[4] == "" + Fixed(r.mops);
      FixedNoInt("", r.mops);
      MtRefused(u, 3);
    } else if j == 3 {
      assert u[3] == t[3] + Fixed(r.mops);
      FixedNoInt(t[3], r.mops);
      MtRefused(u, 3);
    } else {
      var fields := [r.mops, r.scaling, r.cycop, r.ratio.value, r.ipc, r.bmiss];
      assert u[j] == Fixed(fields[j - 4]) + Fixed(fields[j - 3]);
      FixedTwice(fields[j - 4], fields[j - 3]);
      MtRefused(u, j);
    }
  }

  /** Print, split, read: the row comes back whole if no two cells touch, ratio column or not;
      if two touch it is refused.  No row is ever read as another one. */
  lemma MtRoundTrip(r: MtRow)
    requires Word(r.impl) && Word(r.cat)
    ensures ReadMt(Tokens(Render("  ", MtCells(r)))) == if NoTouch(2, MtCells(r)) then Some(r) else None
  {
    hide ReadMt, OneMerge, Texts, Tokens;
    MtTexts(r);
    TwoBlanks();
    RowTokens("  ", MtCells(r));
    JoinedCount(2, MtCells(r));
    var u := Joined(2, MtCells(r));
    if |u| < |MtCells(r)| {
      if r.ratio.Some? && |u| == 9 { MtMerged(r, u); } else { MtShort(u); }
    }
  }

  lemma MtShort(u: seq<string>)
    requires |u| < 9
    ensures ReadMt(u) == None
  {
  }

  /** Names and numbers of the bench's widths always come back. */
  lemma MtBenchRows(r: MtRow)
    requires Word(r.impl) && |r.impl| < 8 && Word(r.cat) && |r.cat| <= 8 && NarrowFrom(MtCells(r), 2)
    ensures ReadMt(Tokens(Render("  ", MtCells(r)))) == Some(r)
  {
    hide ReadMt, Tokens, Render, Dec, Fixed;
    FittingRows(2, MtCells(r));
    MtRoundTrip(r);
  }

  /** What the bench measured; a negative ratio means there is none. */
  datatype MtRecord = MtRecord(impl: string, cat: string, thr: nat, total: nat, mops: real, scaling: real,
                               cycop: real, ratio: real, ipc: real, bmiss: real)

  function MtPrinted(m: MtRecord): MtRow {
    MtRow(m.impl, m.cat, m.thr, m.total, Hundredths(m.mops), Hundredths(m.scaling), Hundredths(m.cycop),
          if m.ratio >= 0.0 then Some(Hundredths(m.ratio)) else None, Hundredths(m.ipc), Hundredths(m.bmiss))
  }

  /** Every row that is read carries the record's names and counts, and each measurement to within
      half a hundredth. */
  lemma MtMeasured(m: MtRecord)
    requires Word(m.impl) && Word(m.cat)
    ensures var o := ReadMt(Tokens(Render("  ", MtCells(MtPrinted(m)))));
            o.Some? ==>
              var r := o.value;
              && r.impl == m.impl && r.cat == m.cat && r.thr == m.thr && r.total == m.total
              && Near(r.mops, m.mops) && Near(r.scaling, m.scaling) && Near(r.cycop, m.cycop)
              && Near(r.ipc, m.ipc) && Near(r.bmiss, m.bmiss)
              && (r.ratio.Some? <==> m.ratio >= 0.0) && (r.ratio.Some? ==> Near(r.ratio.value, m.ratio))
  {
    MtRoundTrip(MtPrinted(m));
  }

  // ----- rows of the single-threaded throughput table -----

  datatype StRow = StRow(impl: string, cat: string, phase: string, count: nat, ops: nat, cycop: nat,
                         nsop: nat, mops: nat, ipc: nat, bmiss: nat, ratio: Option<nat>)

  function StCells(r: StRow): seq<Cell> {
    [Left(r.impl, 10), Left(r.cat, 18), Right(r.phase, 27), Right(Dec(r.count), 37), Right(Dec(r.ops), 48),
     Right(Fixed(r.cycop), 59), Right(Fixed(r.nsop), 69), Right(Fixed(r.mops), 81), Right(Fixed(r.ipc), 89),
     Right(Fixed(r.bmiss), 98)] +
    (if r.ratio.Some? then [Right(Fixed(r.ratio.value), 106)] else [])
  }

  function ReadSt(t: seq<string>): Option<StRow> {
    if |t| < 10 then None
    else
      var count :- IntOf(t[3]);
      var ops :- IntOf(t[4]);
      var cycop :- FixedOf(t[5]);
      var nsop :- FixedOf(t[6]);
      var mops :- FixedOf(t[7]);
      var ipc :- FixedOf(t[8]);
      var bmiss :- FixedOf(t[9]);
      if |t| >= 11 then
        var ratio :- FixedOf(t[10]);
        Some(StRow(t[0], t[1], t[2], count, ops, cycop, nsop, mops, ipc, bmiss, Some(ratio)))
      else
        Some(StRow(t[0], t[1], t[2], count, ops, cycop, nsop, mops, ipc, bmiss, None))
  }

  lemma StTexts(r: StRow)
    requires Word(r.impl) && Word(r.cat) && Word(r.phase)
    ensures WordCells(StCells(r)) && ReadSt(Texts(StCells(r))) == Some(r)
  {
    hide Word, IntOf, FixedOf, Dec, Fixed;
    var head := [r.impl, r.cat, r.phase, Dec(r.count), Dec(r.ops), Fixed(r.cycop), Fixed(r.nsop), Fixed(r.mops),
                 Fixed(r.ipc), Fixed(r.bmiss)];
    assert Texts(StCells(r)) == head + (if r.ratio.Some? then [Fixed(r.ratio.value)] else []);
    IntReads(r.count);
    IntReads(r.ops);
    FixedReads(r.cycop);
    FixedReads(r.nsop);
    FixedReads(r.mops);
    FixedReads(r.ipc);
    FixedReads(r.bmiss);
    if r.ratio.Some? { FixedReads(r.ratio.value); }
  }

  lemma StRefused(u: seq<string>, j: nat)
    requires |u| == 10 && 4 <= j < 10 && (if j == 4 then IntOf(u[4]) else FixedOf(u[j])) == None
    ensures ReadSt(u) == None
  {
    hide IntOf, FixedOf;
  }

  lemma StMerged(r: StRow, u: seq<string>)
    requires r.ratio.Some? && OneMerge(Texts(StCells(r)), u)
    ensures ReadSt(u) == None
  {
    hide IntOf, FixedOf, Dec, Fixed, Texts, ReadSt;
    var t := Texts(StCells(r));
    var j: nat :| j + 1 < |t| && u == MergedAt(t, j);
    assert |t| == 11;
    if j < 4 {
      assert u[4] == t[5] == "" + Fixed(r.cycop);
      FixedNoInt("", r.cycop);
      StRefused(u, 4);
    } else if j == 4 {
      assert u[4] == t[4] + Fixed(r.cycop);
      FixedNoInt(t[4], r.cycop);
      StRefused(u, 4);
    } else {
      var fields := [r.cycop, r.nsop, r.mops, r.ipc, r.bmiss, r.ratio.value];
      assert u[j] == Fixed(fields[j - 5]) + Fixed(fields[j - 4]);
      FixedTwice(fields[j - 5], fields[j - 4]);
      StRefused(u, j);
    }
  }

  lemma StShort(u: seq<string>)
    requires |u| < 10
    ensures ReadSt(u) == None
  {
  }

  lemma StRoundTrip(r: StRow)
    requires Word(r.impl) && Word(r.cat) && Word(r.phase)
    ensures ReadSt(Tokens(Render("  ", StCells(r)))) == if NoTouch(2, StCells(r)) then Some(r) else None
  {
    hide ReadSt, OneMerge, Texts, Tokens;
    StTexts(r);
    TwoBlanks();
    RowTokens("  ", StCells(r));
    JoinedCount(2, StCells(r));
    var u := Joined(2, StCells(r));
    if |u| < |StCells(r)| {
      if r.ratio.Some? && |u| == 10 { StMerged(r, u); } else { StShort(u); }
    }
  }

  datatype StRecord = StRecord(impl: string, cat: string, phase: string, count: nat, ops: nat, cycop: real,
                               nsop: real, mops: real, ipc: real, bmiss: real, ratio: real)

  function StPrinted(m: StRecord): StRow {
    StRow(m.impl, m.cat, m.phase, m.count, m.ops, Hundredths(m.cycop), Hundredths(m.nsop), Hundredths(m.mops),
          Hundredths(m.ipc), Hundredths(m.bmiss), if m.ratio >= 0.0 then Some(Hundredths(m.ratio)) else None)
  }

  lemma StMeasured(m: StRecord)
    requires Word(m.impl) && Word(m.cat) && Word(m.phase)
    ensures var o := ReadSt(Tokens(Render("  ", StCells(StPrinted(m)))));
            o.Some? ==>
              var r := o.value;
              && r.impl == m.impl && r.cat == m.cat && r.phase == m.phase && r.count == m.count && r.ops == m.ops
              && Near(r.cycop, m.cycop) && Near(r.nsop, m.nsop) && Near(r.mops, m.mops)
              && Near(r.ipc, m.ipc) && Near(r.bmiss, m.bmiss)
              && (r.ratio.Some? <==> m.ratio >= 0.0) && (r.ratio.Some? ==> Near(r.ratio.value, m.ratio))
  {
    StRoundTrip(StPrinted(m));
  }

  /** Of rows with the widths of the bench's names and numbers that leave a blank, exactly those
      with an 8-letter category and a 9-letter phase are lost. */
  lemma StBenchRows(r: StRow)
    requires Word(r.impl) && |r.impl| < 8 && Word(r.cat) && |r.cat| <= 8 && Word(r.phase) && |r.phase| <= 9
    requires NarrowFrom(StCells(r), 3)
    ensures ReadSt(Tokens(Render("  ", StCells(r)))) == Some(r) <==> |r.cat| < 8 || |r.phase| < 9
  {
    hide ReadSt, Tokens, Render, Dec, Fixed;
    FittingRows(2, StCells(r));
    assert Apart(2, StCells(r), 2) <==> |r.cat| < 8 || |r.phase| < 9;
    StRoundTrip(r);
  }

  lemma SubPageTouches(impl: string, cells: seq<Cell>)
    requires |impl| < 8 && |cells| >= 3
    requires cells[..3] == [Left(impl, 10), Left("sub-page", 18), Right("bulk-free", 27)]
    ensures !NoTouch(2, cells)
  {
    assert !Apart(2, cells[..3], 2);
    FittingRows(2, cells[..3]);
    if NoTouch(2, cells) { NoTouchPrefix(2, cells, 3); }
  }

  /** The bench prints such rows: category "sub-page" fills its column and phase "bulk-free" the
      room up to the next, so the plotting script drops them, whatever was measured. */
  lemma SubPageBulkFreeLost(r: StRow)
    requires Word(r.impl) && |r.impl| < 8 && r.cat == "sub-page" && r.phase == "bulk-free"
    ensures !NoTouch(2, StCells(r)) && ReadSt(Tokens(Render("  ", StCells(r)))) == None
  {
    SubPageTouches(r.impl, StCells(r));
    StRoundTrip(r);
  }

  // ----- rows of the latency tables -----

  datatype Lat = Lat(p10: nat, p50: nat, p90: nat, p99: nat, p999: nat, max: nat)

  function LatCells(l: Lat): seq<Cell> {
    [Right(Fixed(l.p10), 49), Right(Fixed(l.p50), 60), Right(Fixed(l.p90), 71), Right(Fixed(l.p99), 83),
     Right(Fixed(l.p999), 95), Right(Fixed(l.max), 107)]
  }

  function ReadLat(t: seq<string>): Option<Lat>
    requires |t| >= 10
  {
    var p10 :- FixedOf(t[4]);
    var p50 :- FixedOf(t[5]);
    var p90 :- FixedOf(t[6]);
    var p99 :- FixedOf(t[7]);
    var p999 :- FixedOf(t[8]);
    var max :- FixedOf(t[9]);
    Some(Lat(p10, p50, p90, p99, p999, max))
  }

  datatype StLatRow = StLatRow(impl: string, cat: string, phase: string, count: nat, lat: Lat)
  datatype MtLatRow = MtLatRow(impl: string, cat: string, thr: nat, total: nat, lat: Lat)

  function StLatCells(r: StLatRow): seq<Cell> {
    [Left(r.impl, 10), Left(r.cat, 18), Right(r.phase, 27), Right(Dec(r.count), 37)] + LatCells(r.lat)
  }

  function MtLatCells(r: MtLatRow): seq<Cell> {
    [Left(r.impl, 10), Left(r.cat, 18), Right(Dec(r.thr), 25), Right(Dec(r.total), 37)] + LatCells(r.lat)
  }

  function ReadStLat(t: seq<string>): Option<StLatRow> {
    if |t| < 10 then None
    else
      var count :- IntOf(t[3]);
      var lat :- ReadLat(t);
      Some(StLatRow(t[0], t[1], t[2], count, lat))
  }

  function ReadMtLat(t: seq<string>): Option<MtLatRow> {
    if |t| < 10 then None
    else
      var thr :- IntOf(t[2]);
      var total :- IntOf(t[3]);
      var lat :- ReadLat(t);
      Some(MtLatRow(t[0], t[1], thr, total, lat))
  }

  lemma LatTexts(t: seq<string>, l: Lat)
    requires |t| == 10 && t[4..] == Texts(LatCells(l))
    ensures WordCells(LatCells(l)) && ReadLat(t) == Some(l)
  {
    hide Word, FixedOf, Fixed;
    forall k | 4 <= k < 10 ensures t[k] == LatCells(l)[k - 4].text {
      assert t[k] == t[4..][k - 4];
    }
    FixedReads(l.p10);
    FixedReads(l.p50);
    FixedReads(l.p90);
    FixedReads(l.p99);
    FixedReads(l.p999);
    FixedReads(l.max);
  }

  lemma StLatTexts(r: StLatRow)
    requires Word(r.impl) && Word(r.cat) && Word(r.phase)
    ensures WordCells(StLatCells(r)) && ReadStLat(Texts(StLatCells(r))) == Some(r)
  {
    hide Word, IntOf, FixedOf, Dec, Fixed, ReadLat;
    var t := Texts(StLatCells(r));
    assert t[4..] == Texts(LatCells(r.lat));
    LatTexts(t, r.lat);
    IntReads(r.count);
  }

  lemma MtLatTexts(r: MtLatRow)
    requires Word(r.impl) && Word(r.cat)
    ensures WordCells(MtLatCells(r)) && ReadMtLat(Texts(MtLatCells(r))) == Some(r)
  {
    hide Word, IntOf, FixedOf, Dec, Fixed, ReadLat;
    var t := Texts(MtLatCells(r));
    assert t[4..] == Texts(LatCells(r.lat));
    LatTexts(t, r.lat);
    IntReads(r.thr);
    IntReads(r.total);
  }

  /** A latency row needs all of its ten tokens, so it too is read back whole or not at all. */
  lemma StLatRoundTrip(r: StLatRow)
    requires Word(r.impl) && Word(r.cat) && Word(r.phase)
    ensures ReadStLat(Tokens(Render("  ", StLatCells(r)))) == if NoTouch(2, StLatCells(r)) then Some(r) else None
  {
    hide Texts, Tokens, ReadLat, OneMerge;
    StLatTexts(r);
    TwoBlanks();
    RowTokens("  ", StLatCells(r));
    JoinedCount(2, StLatCells(r));
  }

  lemma MtLatRoundTrip(r: MtLatRow)
    requires Word(r.impl) && Word(r.cat)
    ensures ReadMtLat(Tokens(Render("  ", MtLatCells(r)))) == if NoTouch(2, MtLatCells(r)) then Some(r) else None
  {
    hide Texts, Tokens, ReadLat, OneMerge;
    MtLatTexts(r);
    TwoBlanks();
    RowTokens("  ", MtLatCells(r));
    JoinedCount(2, MtLatCells(r));
  }

  /** The latency rows of the same pair are lost as well. */
  lemma SubPageBulkFreeLatencyLost(r: StLatRow)
    requires Word(r.impl) && |r.impl| < 8 && r.cat == "sub-page" && r.phase == "bulk-free"
    ensures !NoTouch(2, StLatCells(r)) && ReadStLat(Tokens(Render("  ", StLatCells(r)))) == None
  {
    SubPageTouches(r.impl, StLatCells(r));
    StLatRoundTrip(r);
  }

  // ----- the line buffer -----

  /** No column beyond 107 and no text beyond 23 letters. */
  predicate Modest(cells: seq<Cell>) {
    forall k :: 0 <= k < |cells| ==> cells[k].col <= 107 && |cells[k].text| <= 23
  }

  /** Such rows of up to eleven cells fit the buffer, whatever runs over its column. */
  lemma {:induction false} LineFits(line: string, cells: seq<Cell>)
    requires Modest(cells) && |line| <= 107
    ensures |Render(line, cells)| <= 107 + 24 * |cells|
    decreases |cells|
  {
    if cells != [] {
      LineFits(line, cells[..|cells| - 1]);
    }
  }

  /** A 64-bit number prints in at most 20 digits, with two decimals in 23 characters. */
  lemma FixedFits(h: nat)
    requires h / 100 < WORD
    ensures |Fixed(h)| <= 23
  {
    hide Dec;
    DecFits(h / 100);
  }
}
