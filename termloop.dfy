/** The small termloop replacement the snake game draws with: colours, key
    events, the sparse cell buffer a frame is drawn into, the Text, Rectangle
    and canvas Entity primitives, and the entity registry with the levels that
    feed it. The frame compositor lives in TermFrame, the input decoder in
    TermInput. */
module Termloop {

  import opened Wrappers
  import Utf8

  /** Colour attributes, in the order of their Go constants (ColorDefault = 0). */
  datatype Attr = Default | Black | Red | Green | Blue | Yellow | Magenta | Cyan | White

  /** Keys the decoder produces; NoKey is the zero Key of a character event. */
  datatype Key = NoKey | ArrowUp | ArrowDown | ArrowLeft | ArrowRight | Delete

  /** A key event (the only event type): a key, or a character in ch. */
  datatype Event = Event(key: Key, ch: char)

  /** One cell of the frame: colours and a rune, '\0' standing for none. */
  datatype Cell = Cell(fg: Attr, bg: Attr, ch: char)

  /** The cell buffer, row (y) first as in the Go map of maps. */
  type Cells = map<int, map<int, Cell>>

  /** Rows are created only by a write, so none is ever empty. */
  predicate NoEmptyRows(cells: Cells) {
    forall y :: y in cells ==> exists x :: x in cells[y]
  }

  function Lookup(cells: Cells, x: int, y: int): Option<Cell> {
    if y in cells && x in cells[y] then Some(cells[y][x]) else None
  }

  /** The buffer after one write at (x, y): the row is created when missing. */
  function Put(cells: Cells, x: int, y: int, c: Cell): Cells {
    cells[y := (if y in cells then cells[y] else map[])[x := c]]
  }

  /** Last writer wins at (x, y) and every other cell is as it was. */
  lemma PutLookup(cells: Cells, x: int, y: int, c: Cell, x': int, y': int)
    ensures Lookup(Put(cells, x, y, c), x', y') ==
      if x' == x && y' == y then Some(c) else Lookup(cells, x', y')
  {
  }

  lemma PutKeepsRows(cells: Cells, x: int, y: int, c: Cell)
    requires NoEmptyRows(cells)
    ensures NoEmptyRows(Put(cells, x, y, c))
  {
    assert x in Put(cells, x, y, c)[y];
  }

  /** Two buffers without empty rows that agree cell by cell are equal. */
  lemma {:induction false} CellsExtensional(a: Cells, b: Cells)
    requires NoEmptyRows(a) && NoEmptyRows(b)
    requires forall x, y :: Lookup(a, x, y) == Lookup(b, x, y)
    ensures a == b
  {
    forall y | y in a
      ensures y in b && a[y] == b[y]
    {
      var x :| x in a[y];
      assert Lookup(a, x, y).Some?;
      forall x' | x' in a[y] ensures x' in b[y] && a[y][x'] == b[y][x'] {
        assert Lookup(a, x', y) == Lookup(b, x', y);
      }
      forall x' | x' in b[y] ensures x' in a[y] {
        assert Lookup(a, x', y) == Lookup(b, x', y);
      }
    }
    forall y | y in b
      ensures y in a
    {
      var x :| x in b[y];
      assert Lookup(b, x, y).Some?;
    }
  }

  /** The buffer drawFrame fills and composites. */
  class Screen {
    var cells: Cells

    predicate Valid()
      reads this
    {
      NoEmptyRows(cells)
    }

    constructor ()
      ensures Valid() && cells == map[]
    {
      cells := map[];
    }

    /** Screen.RenderCell: a nil cell is ignored; otherwise (x, y) gets it. */
    method RenderCell(x: int, y: int, c: Option<Cell>)
      requires Valid()
      modifies this
      ensures Valid()
      ensures cells == if c.None? then old(cells) else Put(old(cells), x, y, c.value)
    {
      if c.None? {
        return;
      }
      var row := if y in cells then cells[y] else map[];
      cells := cells[y := row[x := c.value]];
      PutKeepsRows(old(cells), x, y, c.value);
    }

    /** The reset at the start of drawFrame. */
    method Clear()
      modifies this
      ensures Valid() && cells == map[]
    {
      cells := map[];
    }
  }

  /** utf8.RuneLen: width in bytes of the UTF-8 encoding of c. */
  function RuneLen(c: char): (n: nat)
    ensures 1 <= n <= 4
  {
    var r := c as int;
    if r < 0x80 then 1 else if r < 0x800 then 2 else if r < 0x10000 then 3 else 4
  }

  /** RuneLen is the length of the encoding EncodeRune produces. */
  lemma RuneLenIsEncodingLength(c: char)
    ensures RuneLen(c) == |Utf8.EncodeRune(c as int)|
  {
  }

  /** Byte offset of rune k in a string: what `range` over a Go string yields
      as the index. */
  function Offset(text: seq<char>, k: nat): nat
    requires k <= |text|
  {
    if k == 0 then 0 else Offset(text, k - 1) + RuneLen(text[k - 1])
  }

  lemma {:induction false} OffsetGrows(text: seq<char>, j: nat, k: nat)
    requires j < k <= |text|
    ensures Offset(text, j) + 1 <= Offset(text, k)
    ensures Offset(text, j) + RuneLen(text[j]) <= Offset(text, k)
    decreases k
  {
    if j < k - 1 {
      OffsetGrows(text, j, k - 1);
    }
  }

  /** The buffer after the first k runes of a Text are drawn. */
  function PaintText(cells: Cells, x: int, y: int, fg: Attr, bg: Attr, text: seq<char>, k: nat): Cells
    requires k <= |text|
  {
    if k == 0 then cells
    else Put(PaintText(cells, x, y, fg, bg, text, k - 1), x + Offset(text, k - 1), y, Cell(fg, bg, text[k - 1]))
  }

  /** Text.Draw puts rune k at x plus its byte offset on row y, and changes
      no other cell. */
  lemma {:induction false} TextCells(cells: Cells, x: int, y: int, fg: Attr, bg: Attr, text: seq<char>, k: nat, x': int, y': int)
    requires k <= |text|
    ensures Lookup(PaintText(cells, x, y, fg, bg, text, k), x', y') ==
      if y' == y && exists m :: 0 <= m < k && x' == x + Offset(text, m)
      then Some(Cell(fg, bg, text[OffsetIndex(text, k, x' - x)]))
      else Lookup(cells, x', y')
    decreases k
  {
    if k > 0 {
      TextCells(cells, x, y, fg, bg, text, k - 1, x', y');
      var before := PaintText(cells, x, y, fg, bg, text, k - 1);
      PutLookup(before, x + Offset(text, k - 1), y, Cell(fg, bg, text[k - 1]), x', y');
      OffsetsAfterStep(text, k, x' - x);
    }
  }

  /** How the offsets among the first k runes relate to those among the first
      k - 1: off is either rune k - 1's, one of the earlier ones, or none. */
  lemma OffsetsAfterStep(text: seq<char>, k: nat, off: int)
    requires 0 < k <= |text|
    ensures off == Offset(text, k - 1) ==>
      OffsetIndex(text, k, off) == k - 1 && exists m :: 0 <= m < k && off == Offset(text, m)
    ensures off != Offset(text, k - 1) ==>
      && OffsetIndex(text, k, off) == OffsetIndex(text, k - 1, off)
      && ((exists m :: 0 <= m < k && off == Offset(text, m)) <==> (exists m :: 0 <= m < k - 1 && off == Offset(text, m)))
  {
    if off == Offset(text, k - 1) {
      assert 0 <= k - 1 < k && off == Offset(text, k - 1);
    } else {
      if exists m :: 0 <= m < k && off == Offset(text, m) {
        var m :| 0 <= m < k && off == Offset(text, m);
        assert m < k - 1;
      }
    }
  }

  /** The index of the last rune among the first k whose offset is off. */
  function OffsetIndex(text: seq<char>, k: nat, off: int): (m: nat)
    requires k <= |text|
    ensures m < k || m == 0
  {
    if k == 0 then 0
    else if Offset(text, k - 1) == off then k - 1
    else OffsetIndex(text, k - 1, off)
  }

  lemma {:induction false} OffsetIndexUnique(text: seq<char>, k: nat, m: nat)
    requires m < k <= |text|
    ensures OffsetIndex(text, k, Offset(text, m)) == m
    decreases k
  {
    if m < k - 1 {
      OffsetGrows(text, m, k - 1);
      OffsetIndexUnique(text, k - 1, m);
    }
  }

  /** A text entity. */
  class Text {
    const x: int
    const y: int
    const fg: Attr
    const bg: Attr
    var text: seq<char>

    constructor (x: int, y: int, text: seq<char>, fg: Attr, bg: Attr)
      ensures this.x == x && this.y == y && this.text == text && this.fg == fg && this.bg == bg
    {
      this.x, this.y, this.text, this.fg, this.bg := x, y, text, fg, bg;
    }

    method SetText(s: seq<char>)
      modifies this
      ensures text == s
    {
      text := s;
    }

    method Draw(screen: Screen)
      requires screen.Valid()
      modifies screen
      ensures screen.Valid()
      ensures screen.cells == PaintText(old(screen.cells), x, y, fg, bg, text, |text|)
    {
      var i := 0;
      var off := 0;
      while i < |text|
        invariant 0 <= i <= |text| && off == Offset(text, i)
        invariant screen.Valid()
        invariant screen.cells == PaintText(old(screen.cells), x, y, fg, bg, text, i)
      {
        screen.RenderCell(x + off, y, Some(Cell(fg, bg, text[i])));
        off := off + RuneLen(text[i]);
        i := i + 1;
      }
    }
  }

  /** The buffer after rows 0..j-1 of a w-wide rectangle, row j columns
      0..k-1, are filled with blank cells of background bg. */
  function PaintRow(cells: Cells, x: int, y: int, bg: Attr, k: nat): Cells {
    if k == 0 then cells else Put(PaintRow(cells, x, y, bg, k - 1), x + k - 1, y, Cell(Default, bg, ' '))
  }

  function PaintRect(cells: Cells, x: int, y: int, w: nat, bg: Attr, j: nat): Cells {
    if j == 0 then cells else PaintRow(PaintRect(cells, x, y, w, bg, j - 1), x, y + j - 1, bg, w)
  }

  lemma {:induction false} RowCells(cells: Cells, x: int, y: int, bg: Attr, k: nat, x': int, y': int)
    ensures Lookup(PaintRow(cells, x, y, bg, k), x', y') ==
      if y' == y && x <= x' < x + k then Some(Cell(Default, bg, ' ')) else Lookup(cells, x', y')
    decreases k
  {
    if k > 0 {
      RowCells(cells, x, y, bg, k - 1, x', y');
    }
  }

  /** Rectangle.Draw fills exactly the w by h cells from (x, y) with a blank
      of its background and leaves every other cell as it was. */
  lemma {:induction false} RectCells(cells: Cells, x: int, y: int, w: nat, bg: Attr, h: nat, x': int, y': int)
    ensures Lookup(PaintRect(cells, x, y, w, bg, h), x', y') ==
      if x <= x' < x + w && y <= y' < y + h then Some(Cell(Default, bg, ' ')) else Lookup(cells, x', y')
    decreases h
  {
    if h > 0 {
      RowCells(PaintRect(cells, x, y, w, bg, h - 1), x, y + h - 1, bg, w, x', y');
      RectCells(cells, x, y, w, bg, h - 1, x', y');
    }
  }

  /** A filled rectangle entity. */
  class Rectangle {
    const x: int
    const y: int
    const w: int
    const h: int
    const bg: Attr

    constructor (x: int, y: int, w: int, h: int, bg: Attr)
      ensures this.x == x && this.y == y && this.w == w && this.h == h && this.bg == bg
    {
      this.x, this.y, this.w, this.h, this.bg := x, y, w, h, bg;
    }

    /** Negative sizes draw nothing, as the Go loops do not run. */
    method Draw(screen: Screen)
      requires screen.Valid()
      modifies screen
      ensures screen.Valid()
      ensures screen.cells == PaintRect(old(screen.cells), x, y, Clamp(w), bg, Clamp(h))
    {
      var yy := 0;
      while yy < h
        invariant 0 <= yy <= Clamp(h)
        invariant screen.Valid()
        invariant screen.cells == PaintRect(old(screen.cells), x, y, Clamp(w), bg, yy)
      {
        var xx := 0;
        ghost var before := screen.cells;
        while xx < w
          invariant 0 <= xx <= Clamp(w)
          invariant screen.Valid()
          invariant screen.cells == PaintRow(before, x, y + yy, bg, xx)
        {
          screen.RenderCell(x + xx, y + yy, Some(Cell(Default, bg, ' ')));
          xx := xx + 1;
        }
        yy := yy + 1;
      }
    }
  }

  function Clamp(n: int): nat {
    if n < 0 then 0 else n
  }

  /** The buffer after canvas rows 0..j-1 (and row j up to column k) are
      drawn: zero runes are skipped. */
  function PaintCanvasRow(cells: Cells, x: int, y: int, row: seq<char>, k: nat): Cells
    requires k <= |row|
  {
    if k == 0 then cells
    else
      var before := PaintCanvasRow(cells, x, y, row, k - 1);
      if row[k - 1] == '\0' then before else Put(before, x + k - 1, y, Cell(Default, Default, row[k - 1]))
  }

  function PaintCanvas(cells: Cells, x: int, y: int, canvas: seq<seq<char>>, j: nat): Cells
    requires j <= |canvas|
  {
    if j == 0 then cells
    else PaintCanvasRow(PaintCanvas(cells, x, y, canvas, j - 1), x, y + j - 1, canvas[j - 1], |canvas[j - 1]|)
  }

  lemma {:induction false} CanvasRowCells(cells: Cells, x: int, y: int, row: seq<char>, k: nat, x': int, y': int)
    requires k <= |row|
    ensures Lookup(PaintCanvasRow(cells, x, y, row, k), x', y') ==
      if y' == y && x <= x' < x + k && row[x' - x] != '\0' then Some(Cell(Default, Default, row[x' - x]))
      else Lookup(cells, x', y')
    decreases k
  {
    if k > 0 {
      CanvasRowCells(cells, x, y, row, k - 1, x', y');
    }
  }

  /** Entity.Draw puts every non-zero rune of its canvas at its position plus
      (column, row), and leaves every other cell, zero runes included, as it
      was. */
  lemma {:induction false} CanvasCells(cells: Cells, x: int, y: int, canvas: seq<seq<char>>, j: nat, x': int, y': int)
    requires j <= |canvas|
    ensures Lookup(PaintCanvas(cells, x, y, canvas, j), x', y') ==
      if y <= y' < y + j && x <= x' < x + |canvas[y' - y]| && canvas[y' - y][x' - x] != '\0'
      then Some(Cell(Default, Default, canvas[y' - y][x' - x]))
      else Lookup(cells, x', y')
    decreases j
  {
    if j > 0 {
      CanvasRowCells(PaintCanvas(cells, x, y, canvas, j - 1), x, y + j - 1, canvas[j - 1], |canvas[j - 1]|, x', y');
      CanvasCells(cells, x, y, canvas, j - 1, x', y');
    }
  }

  /** An entity with a position and an optional canvas (the game-over logo). */
  class Entity {
    var x: int
    var y: int
    const w: int
    const h: int
    const canvas: seq<seq<char>>

    constructor (x: int, y: int, w: int, h: int)
      ensures this.x == x && this.y == y && this.w == w && this.h == h && canvas == []
    {
      this.x, this.y, this.w, this.h := x, y, w, h;
      canvas := [];
    }

    /** NewEntityFromCanvas. */
    constructor FromCanvas(x: int, y: int, canvas: seq<seq<char>>)
      ensures this.x == x && this.y == y && this.canvas == canvas && w == 0 && h == 0
    {
      this.x, this.y, this.canvas := x, y, canvas;
      w, h := 0, 0;
    }

    method SetPosition(x: int, y: int)
      modifies this
      ensures this.x == x && this.y == y
    {
      this.x, this.y := x, y;
    }

    method Draw(screen: Screen)
      requires screen.Valid()
      modifies screen
      ensures screen.Valid()
      ensures screen.cells == PaintCanvas(old(screen.cells), x, y, canvas, |canvas|)
    {
      if |canvas| == 0 {
        return;
      }
      var dy := 0;
      while dy < |canvas|
        invariant 0 <= dy <= |canvas|
        invariant screen.Valid()
        invariant screen.cells == PaintCanvas(old(screen.cells), x, y, canvas, dy)
      {
        var row := canvas[dy];
        var dx := 0;
        ghost var before := screen.cells;
        while dx < |row|
          invariant 0 <= dx <= |row|
          invariant screen.Valid()
          invariant screen.cells == PaintCanvasRow(before, x, y + dy, row, dx)
        {
          var ch := row[dx];
          if ch != '\0' {
            screen.RenderCell(x + dx, y + dy, Some(Cell(Default, Default, ch)));
          }
          dx := dx + 1;
        }
        dy := dy + 1;
      }
    }
  }

  lemma {:induction false} TextKeepsRows(cells: Cells, x: int, y: int, fg: Attr, bg: Attr, text: seq<char>, k: nat)
    requires k <= |text| && NoEmptyRows(cells)
    ensures NoEmptyRows(PaintText(cells, x, y, fg, bg, text, k))
    decreases k
  {
    if k > 0 {
      TextKeepsRows(cells, x, y, fg, bg, text, k - 1);
      PutKeepsRows(PaintText(cells, x, y, fg, bg, text, k - 1), x + Offset(text, k - 1), y, Cell(fg, bg, text[k - 1]));
    }
  }

  /** drawFrame draws every Text twice; the second pass changes nothing. */
  lemma TextTwice(cells: Cells, x: int, y: int, fg: Attr, bg: Attr, text: seq<char>)
    requires NoEmptyRows(cells)
    ensures var once := PaintText(cells, x, y, fg, bg, text, |text|);
      PaintText(once, x, y, fg, bg, text, |text|) == once
  {
    var once := PaintText(cells, x, y, fg, bg, text, |text|);
    var twice := PaintText(once, x, y, fg, bg, text, |text|);
    TextKeepsRows(cells, x, y, fg, bg, text, |text|);
    TextKeepsRows(once, x, y, fg, bg, text, |text|);
    forall x', y' ensures Lookup(twice, x', y') == Lookup(once, x', y') {
      TextCells(once, x, y, fg, bg, text, |text|, x', y');
      TextCells(cells, x, y, fg, bg, text, |text|, x', y');
    }
    CellsExtensional(twice, once);
  }

  lemma {:induction false} RectKeepsRows(cells: Cells, x: int, y: int, w: nat, bg: Attr, h: nat)
    requires NoEmptyRows(cells)
    ensures NoEmptyRows(PaintRect(cells, x, y, w, bg, h))
    decreases h
  {
    if h > 0 {
      RectKeepsRows(cells, x, y, w, bg, h - 1);
      RowKeepsRows(PaintRect(cells, x, y, w, bg, h - 1), x, y + h - 1, bg, w);
    }
  }

  lemma {:induction false} RowKeepsRows(cells: Cells, x: int, y: int, bg: Attr, k: nat)
    requires NoEmptyRows(cells)
    ensures NoEmptyRows(PaintRow(cells, x, y, bg, k))
    decreases k
  {
    if k > 0 {
      RowKeepsRows(cells, x, y, bg, k - 1);
      PutKeepsRows(PaintRow(cells, x, y, bg, k - 1), x + k - 1, y, Cell(Default, bg, ' '));
    }
  }

  /** The same holds for every Rectangle. */
  lemma RectTwice(cells: Cells, x: int, y: int, w: nat, bg: Attr, h: nat)
    requires NoEmptyRows(cells)
    ensures var once := PaintRect(cells, x, y, w, bg, h);
      PaintRect(once, x, y, w, bg, h) == once
  {
    var once := PaintRect(cells, x, y, w, bg, h);
    var twice := PaintRect(once, x, y, w, bg, h);
    RectKeepsRows(cells, x, y, w, bg, h);
    RectKeepsRows(once, x, y, w, bg, h);
    forall x', y' ensures Lookup(twice, x', y') == Lookup(once, x', y') {
      RectCells(once, x, y, w, bg, h, x', y');
      RectCells(cells, x, y, w, bg, h, x', y');
    }
    CellsExtensional(twice, once);
  }

  lemma {:induction false} CanvasRowKeepsRows(cells: Cells, x: int, y: int, row: seq<char>, k: nat)
    requires k <= |row| && NoEmptyRows(cells)
    ensures NoEmptyRows(PaintCanvasRow(cells, x, y, row, k))
    decreases k
  {
    if k > 0 {
      CanvasRowKeepsRows(cells, x, y, row, k - 1);
      if row[k - 1] != '\0' {
        PutKeepsRows(PaintCanvasRow(cells, x, y, row, k - 1), x + k - 1, y, Cell(Default, Default, row[k - 1]));
      }
    }
  }

  lemma {:induction false} CanvasKeepsRows(cells: Cells, x: int, y: int, canvas: seq<seq<char>>, j: nat)
    requires j <= |canvas| && NoEmptyRows(cells)
    ensures NoEmptyRows(PaintCanvas(cells, x, y, canvas, j))
    decreases j
  {
    if j > 0 {
      CanvasKeepsRows(cells, x, y, canvas, j - 1);
      CanvasRowKeepsRows(PaintCanvas(cells, x, y, canvas, j - 1), x, y + j - 1, canvas[j - 1], |canvas[j - 1]|);
    }
  }

  /** And for every canvas Entity. */
  lemma CanvasTwice(cells: Cells, x: int, y: int, canvas: seq<seq<char>>)
    requires NoEmptyRows(cells)
    ensures var once := PaintCanvas(cells, x, y, canvas, |canvas|);
      PaintCanvas(once, x, y, canvas, |canvas|) == once
  {
    var once := PaintCanvas(cells, x, y, canvas, |canvas|);
    var twice := PaintCanvas(once, x, y, canvas, |canvas|);
    CanvasKeepsRows(cells, x, y, canvas, |canvas|);
    CanvasKeepsRows(once, x, y, canvas, |canvas|);
    forall x', y' ensures Lookup(twice, x', y') == Lookup(once, x', y') {
      CanvasCells(once, x, y, canvas, |canvas|, x', y');
      CanvasCells(cells, x, y, canvas, |canvas|, x', y');
    }
    CellsExtensional(twice, once);
  }

  /** The game: its screen, its frame rate and the quit flag. */
  class Game {
    const screen: Screen
    var fps: int
    var quit: bool

    /** NewGame: 60 frames per second and an empty screen. */
    constructor ()
      ensures fps == 60 && !quit && fresh(screen) && screen.Valid() && screen.cells == map[]
    {
      fps := 60;
      quit := false;
      screen := new Screen();
    }

    /** Screen.SetFps, through the screen's game. */
    method SetFps(f: int)
      modifies this
      ensures fps == f && quit == old(quit)
    {
      fps := f;
    }
  }

  /** strings.ReplaceAll(s, "\r\n", "\n"), one pass from the left. */
  function NormalizeNewlines(s: seq<char>): seq<char> {
    if |s| >= 2 && s[0] == '\r' && s[1] == '\n' then ['\n'] + NormalizeNewlines(s[2..])
    else if s == [] then []
    else [s[0]] + NormalizeNewlines(s[1..])
  }

  /** strings.Split(s, "\n"): the pieces between newlines, one more than
      there are newlines. */
  function SplitLines(s: seq<char>): seq<seq<char>> {
    if s == [] then [[]]
    else
      var rest := SplitLines(s[1..]);
      if s[0] == '\n' then [[]] + rest else [[s[0]] + rest[0]] + rest[1..]
  }

  function JoinLines(lines: seq<seq<char>>): seq<char> {
    if lines == [] then [] else if |lines| == 1 then lines[0] else lines[0] + ['\n'] + JoinLines(lines[1..])
  }

  function CountNewlines(s: seq<char>): nat {
    if s == [] then 0 else (if s[0] == '\n' then 1 else 0) + CountNewlines(s[1..])
  }

  /** CanvasFromString: one row per line of the text. */
  function CanvasFromString(s: seq<char>): seq<seq<char>> {
    SplitLines(NormalizeNewlines(s))
  }

  lemma {:induction false} SplitLinesShape(s: seq<char>)
    ensures |SplitLines(s)| == CountNewlines(s) + 1
    ensures forall i :: 0 <= i < |SplitLines(s)| ==> '\n' !in SplitLines(s)[i]
    ensures JoinLines(SplitLines(s)) == s
    decreases |s|
  {
    if s != [] {
      SplitLinesShape(s[1..]);
      var rest := SplitLines(s[1..]);
      if s[0] == '\n' {
        assert [s[0]] + s[1..] == s;
      } else {
        var first := [s[0]] + rest[0];
        assert '\n' !in first;
        if |rest| == 1 {
          assert s == [s[0]] + rest[0];
        } else {
          assert JoinLines([first] + rest[1..]) == first + ['\n'] + JoinLines(rest[1..]);
          assert JoinLines(rest) == rest[0] + ['\n'] + JoinLines(rest[1..]);
          assert s == [s[0]] + s[1..];
        }
      }
    }
  }

  lemma {:induction false} NormalizeKeepsNewlines(s: seq<char>)
    ensures CountNewlines(NormalizeNewlines(s)) == CountNewlines(s)
    decreases |s|
  {
    if |s| >= 2 && s[0] == '\r' && s[1] == '\n' {
      NormalizeKeepsNewlines(s[2..]);
      assert s[1..][1..] == s[2..];
    } else if s != [] {
      NormalizeKeepsNewlines(s[1..]);
    }
  }

  /** A canvas has one row per newline of the text plus one; no row holds a
      newline; the rows joined by newlines give the text with each CR LF
      replaced by LF. */
  lemma CanvasRows(s: seq<char>)
    ensures |CanvasFromString(s)| == CountNewlines(s) + 1
    ensures forall i :: 0 <= i < |CanvasFromString(s)| ==> '\n' !in CanvasFromString(s)[i]
    ensures JoinLines(CanvasFromString(s)) == NormalizeNewlines(s)
  {
    SplitLinesShape(NormalizeNewlines(s));
    NormalizeKeepsNewlines(s);
  }

  /** The list with its first element equal to t removed; unchanged when t is
      absent. */
  function RemoveFirst<E(==)>(s: seq<E>, t: E): seq<E> {
    if s == [] then [] else if s[0] == t then s[1..] else [s[0]] + RemoveFirst(s[1..], t)
  }

  /** RemoveFirst cuts out exactly the first occurrence and keeps the order of
      the rest. */
  lemma {:induction false} RemoveFirstAt<E>(s: seq<E>, t: E, i: nat)
    requires i < |s| && s[i] == t && t !in s[..i]
    ensures RemoveFirst(s, t) == s[..i] + s[i + 1..]
    decreases i
  {
    if i > 0 {
      assert s[1..][..i - 1] == s[..i][1..];
      RemoveFirstAt(s[1..], t, i - 1);
    }
  }

  lemma {:induction false} RemoveFirstAbsent<E>(s: seq<E>, t: E)
    requires t !in s
    ensures RemoveFirst(s, t) == s
    decreases |s|
  {
    if s != [] {
      RemoveFirstAbsent(s[1..], t);
    }
  }

  /** As multisets, RemoveFirst takes away one t, or nothing if t is absent. */
  lemma {:induction false} RemoveFirstMultiset<E>(s: seq<E>, t: E)
    ensures multiset(RemoveFirst(s, t)) == multiset(s) - multiset{t}
    decreases |s|
  {
    if s != [] {
      assert s == [s[0]] + s[1..];
      if s[0] != t {
        RemoveFirstMultiset(s[1..], t);
      }
    }
  }

  /** The process-wide list of entities that tick and draw, held here as an
      explicit object. */
  class Registry<E(==)> {
    var entities: seq<E>

    constructor ()
      ensures entities == []
    {
      entities := [];
    }

    /** globalEntities: a copy of the list, immune to later changes. */
    method Snapshot() returns (s: seq<E>)
      ensures s == entities
    {
      s := entities;
    }

    /** registerEntity: append at the end. */
    method Register(e: E)
      modifies this
      ensures entities == old(entities) + [e]
    {
      entities := entities + [e];
    }

    /** unregisterEntity: remove the first identical entry, if any. */
    method Unregister(target: E)
      modifies this
      ensures entities == RemoveFirst(old(entities), target)
    {
      var i := 0;
      while i < |entities|
        invariant 0 <= i <= |entities| && entities == old(entities)
        invariant target !in entities[..i]
      {
        if entities[i] == target {
          RemoveFirstAt(entities, target, i);
          entities := entities[..i] + entities[i + 1..];
          return;
        }
        i := i + 1;
      }
      assert entities[..i] == entities;
      RemoveFirstAbsent(entities, target);
    }
  }

  /** A level: its own entity list, mirrored into the registry. */
  class Level<E(==)> {
    var entities: seq<E>
    const bg: Cell
    const registry: Registry<E>

    /** NewBaseLevel, tied to the session's registry. */
    constructor (bg: Cell, registry: Registry<E>)
      ensures entities == [] && this.bg == bg && this.registry == registry
    {
      entities := [];
      this.bg := bg;
      this.registry := registry;
    }

    method AddEntity(e: E)
      modifies this, registry
      ensures entities == old(entities) + [e]
      ensures registry.entities == old(registry.entities) + [e]
    {
      entities := entities + [e];
      registry.Register(e);
    }

    /** RemoveEntity: when target is in the level's list, its first entry
        there and its first entry in the registry go; otherwise nothing
        changes, not even the registry. */
    method RemoveEntity(target: E)
      modifies this, registry
      ensures entities == RemoveFirst(old(entities), target)
      ensures registry.entities ==
        if target in old(entities) then RemoveFirst(old(registry.entities), target) else old(registry.entities)
    {
      var i := 0;
      while i < |entities|
        invariant 0 <= i <= |entities| && entities == old(entities)
        invariant registry.entities == old(registry.entities)
        invariant target !in entities[..i]
      {
        if entities[i] == target {
          RemoveFirstAt(entities, target, i);
          entities := entities[..i] + entities[i + 1..];
          registry.Unregister(target);
          return;
        }
        i := i + 1;
      }
      assert entities[..i] == entities;
      RemoveFirstAbsent(entities, target);
    }
  }
}
