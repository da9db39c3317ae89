/** The frame compositor of the termloop shim: the bounding box of the drawn
    cells, and the ANSI text that paints that box row by row with background
    colours, changing colour only when it differs and resetting it before
    each newline. A small terminal interpreter reads such text back. */
module TermFrame {

  import opened Wrappers
  import opened Termloop

  /** The box drawFrame paints: min and max column and row. */
  datatype Box = Box(minX: int, maxX: int, minY: int, maxY: int)

  /** b bounds the rows ys of the cells and the columns drawn in them, and
      is tight: each extreme is the origin's 0 or is reached. */
  predicate BoundsOver(cells: Cells, ys: set<int>, b: Box) {
    && b.minY <= 0 <= b.maxY && b.minX <= 0 <= b.maxX
    && (forall y :: y in ys ==> y in cells && b.minY <= y <= b.maxY)
    && (forall y, x :: y in ys && y in cells && x in cells[y] ==> b.minX <= x <= b.maxX)
    && (b.minY == 0 || b.minY in ys) && (b.maxY == 0 || b.maxY in ys)
    && (b.minX == 0 || exists y :: y in ys && y in cells && b.minX in cells[y])
    && (b.maxX == 0 || exists y :: y in ys && y in cells && b.maxX in cells[y])
  }

  /** The box of drawFrame: the smallest one holding the origin and every
      drawn cell. */
  predicate IsBounds(cells: Cells, b: Box) {
    BoundsOver(cells, cells.Keys, b)
  }

  /** There is only one such box, so the frame is a function of the cells. */
  lemma BoundsUnique(cells: Cells, b1: Box, b2: Box)
    requires IsBounds(cells, b1) && IsBounds(cells, b2)
    ensures b1 == b2
  {
  }

  lemma HasMember(s: set<int>)
    ensures s == {} || exists x :: x in s
  {
    if forall x :: x !in s {
      assert s == {};
    }
  }

  /** The column loop of drawFrame's bounds over one row, from the bounds
      so far; keys come in any order, as Go's map iteration does. */
  method RowBounds(row: map<int, Cell>, lo: int, hi: int) returns (lo': int, hi': int)
    ensures lo' <= lo && hi <= hi'
    ensures forall x :: x in row ==> lo' <= x <= hi'
    ensures lo' == lo || lo' in row
    ensures hi' == hi || hi' in row
  {
    lo', hi' := lo, hi;
    var xs := row.Keys;
    while xs != {}
      invariant xs <= row.Keys
      invariant lo' <= lo && hi <= hi'
      invariant forall x :: x in row && x !in xs ==> lo' <= x <= hi'
      invariant lo' == lo || lo' in row
      invariant hi' == hi || hi' in row
      decreases xs
    {
      HasMember(xs);
      var x :| x in xs;
      if x < lo' {
        lo' := x;
      }
      if x > hi' {
        hi' := x;
      }
      xs := xs - {x};
    }
  }

  /** The bounds loop of drawFrame, rows in any order. */
  method ComputeBounds(cells: Cells) returns (b: Box)
    ensures IsBounds(cells, b)
  {
    b := Box(0, 0, 0, 0);
    var rows := cells.Keys;
    ghost var ys: set<int> := {};
    while rows != {}
      invariant rows !! ys && rows + ys == cells.Keys
      invariant BoundsOver(cells, ys, b)
      decreases rows
    {
      HasMember(rows);
      var y :| y in rows;
      var lo, hi := RowBounds(cells[y], b.minX, b.maxX);
      b := Box(lo, hi, if y < b.minY then y else b.minY, if y > b.maxY then y else b.maxY);
      ys := ys + {y};
      rows := rows - {y};
    }
  }

  /** What one position of the box paints: a newline ends each row. */
  datatype Token = Paint(bg: Attr, ch: char) | Newline(bg: Attr)

  /** The cell shown at (x, y): a blank of the default background when
      nothing was drawn there, a blank when the cell has no rune. */
  function Shown(cells: Cells, x: int, y: int): Token {
    match Lookup(cells, x, y)
    case None => Paint(Default, ' ')
    case Some(c) => Paint(c.bg, if c.ch == '\0' then ' ' else c.ch)
  }

  function Width(b: Box): nat
    requires b.minX <= b.maxX
  {
    b.maxX - b.minX + 1
  }

  function Height(b: Box): nat
    requires b.minY <= b.maxY
  {
    b.maxY - b.minY + 1
  }

  /** The first n columns of row y. */
  function RowTokens(cells: Cells, b: Box, y: int, n: nat): seq<Token> {
    if n == 0 then [] else RowTokens(cells, b, y, n - 1) + [Shown(cells, b.minX + n - 1, y)]
  }

  /** The first n rows, each closed by a newline on the default background. */
  function GridTokens(cells: Cells, b: Box, n: nat): seq<Token>
    requires b.minX <= b.maxX
  {
    if n == 0 then []
    else GridTokens(cells, b, n - 1) + RowTokens(cells, b, b.minY + n - 1, Width(b)) + [Newline(Default)]
  }

  function Tokens(cells: Cells, b: Box): seq<Token>
    requires b.minX <= b.maxX && b.minY <= b.maxY
  {
    GridTokens(cells, b, Height(b))
  }

  lemma {:induction false} RowTokensAt(cells: Cells, b: Box, y: int, n: nat)
    ensures |RowTokens(cells, b, y, n)| == n
    ensures forall c :: 0 <= c < n ==> RowTokens(cells, b, y, n)[c] == Shown(cells, b.minX + c, y)
    decreases n
  {
    if n > 0 {
      RowTokensAt(cells, b, y, n - 1);
    }
  }

  lemma {:induction false} GridTokensLength(cells: Cells, b: Box, n: nat)
    requires b.minX <= b.maxX
    ensures |GridTokens(cells, b, n)| == n * (Width(b) + 1)
    decreases n
  {
    if n > 0 {
      GridTokensLength(cells, b, n - 1);
      RowTokensAt(cells, b, b.minY + n - 1, Width(b));
      assert (n - 1) * (Width(b) + 1) + Width(b) + 1 == n * (Width(b) + 1);
    }
  }

  /** The painted grid: position c of row r of the box is token
      r * (width + 1) + c, and the token after the row's last is a newline
      on the default background. */
  lemma {:induction false} GridTokensAt(cells: Cells, b: Box, n: nat, r: nat, c: nat)
    requires b.minX <= b.maxX && r < n && c <= Width(b)
    ensures r * (Width(b) + 1) + c < |GridTokens(cells, b, n)|
    ensures GridTokens(cells, b, n)[r * (Width(b) + 1) + c] ==
      if c < Width(b) then Shown(cells, b.minX + c, b.minY + r) else Newline(Default)
    decreases n
  {
    var w := Width(b);
    GridTokensLength(cells, b, n - 1);
    GridTokensLength(cells, b, n);
    var prev := GridTokens(cells, b, n - 1);
    var row := RowTokens(cells, b, b.minY + n - 1, w);
    RowTokensAt(cells, b, b.minY + n - 1, w);
    assert GridTokens(cells, b, n) == prev + row + [Newline(Default)];
    if r < n - 1 {
      GridTokensAt(cells, b, n - 1, r, c);
    } else {
      assert r * (w + 1) + c == |prev| + c;
    }
  }

  /** The SGR background code of drawFrame's switch. */
  function CodeOf(a: Attr): int {
    match a
    case Black => 40
    case Red => 41
    case Green => 42
    case Yellow => 43
    case Blue => 44
    case Magenta => 45
    case Cyan => 46
    case White => 47
    case Default => 49
  }

  /** The background a terminal takes from an SGR code; 48 and codes
      outside 40..49 are ignored. */
  function AttrOfCode(n: int): Option<Attr> {
    if n == 40 then Some(Black)
    else if n == 41 then Some(Red)
    else if n == 42 then Some(Green)
    else if n == 43 then Some(Yellow)
    else if n == 44 then Some(Blue)
    else if n == 45 then Some(Magenta)
    else if n == 46 then Some(Cyan)
    else if n == 47 then Some(White)
    else if n == 49 then Some(Default)
    else None
  }

  /** Every colour has its own code, 40 to 49, which reads back as it. */
  lemma CodeRoundTrip(a: Attr)
    ensures 40 <= CodeOf(a) <= 49 && CodeOf(a) != 48
    ensures AttrOfCode(CodeOf(a)) == Some(a)
  {
  }

  const Escape: char := 0x1b as char

  /** ESC [ 4 d m for code 40 + d. */
  function Sgr(a: Attr): (s: seq<char>)
    ensures |s| == 5
  {
    [Escape, '[', '4', ('0' as int + CodeOf(a) - 40) as char, 'm']
  }

  /** setBg: nothing when the background is already bg. */
  function SetBg(cur: Attr, bg: Attr): seq<char> {
    if bg == cur then [] else Sgr(bg)
  }

  function Glyph(t: Token): char {
    match t
    case Paint(_, ch) => ch
    case Newline(_) => '\n'
  }

  /** The text drawFrame writes for the tokens, starting on background cur. */
  function Render(toks: seq<Token>, cur: Attr): seq<char> {
    if toks == [] then [] else SetBg(cur, toks[0].bg) + [Glyph(toks[0])] + Render(toks[1..], toks[0].bg)
  }

  /** The background in force after the tokens. */
  function Last(toks: seq<Token>, cur: Attr): Attr {
    if toks == [] then cur else toks[|toks| - 1].bg
  }

  lemma {:induction false} RenderAppend(a: seq<Token>, b: seq<Token>, cur: Attr)
    ensures Render(a + b, cur) == Render(a, cur) + Render(b, Last(a, cur))
    decreases |a|
  {
    if a != [] {
      assert (a + b)[0] == a[0];
      assert (a + b)[1..] == a[1..] + b;
      RenderAppend(a[1..], b, a[0].bg);
      assert Last(a[1..], a[0].bg) == Last(a, cur);
    } else {
      assert a + b == b;
    }
  }

  lemma LastAppend(a: seq<Token>, b: seq<Token>, cur: Attr)
    ensures Last(a + b, cur) == Last(b, Last(a, cur))
  {
    if b == [] {
      assert a + b == a;
    }
  }

  const Prefix: seq<char> := [Escape] + "[H" + [Escape] + "[2J" + [Escape] + "[?25l"
  const Suffix: seq<char> := [Escape] + "[49m"

  /** The whole frame for the cells and their box. */
  function Frame(cells: Cells, b: Box): seq<char>
    requires b.minX <= b.maxX && b.minY <= b.maxY
  {
    Prefix + Render(Tokens(cells, b), Default) + Suffix
  }

  /** The setBg closure: the text to emit and the new current background. */
  method SetBackground(cur: Attr, bg: Attr) returns (emit: seq<char>, next: Attr)
    ensures emit == SetBg(cur, bg) && next == bg
  {
    if bg == cur {
      return [], cur;
    }
    next := bg;
    if bg == Default {
      return [Escape] + "[49m", next;
    }
    var code := 49;
    match bg {
      case Black => code := 40;
      case Red => code := 41;
      case Green => code := 42;
      case Yellow => code := 43;
      case Blue => code := 44;
      case Magenta => code := 45;
      case Cyan => code := 46;
      case White => code := 47;
    }
    emit := [Escape, '[', '4', ('0' as int + code - 40) as char, 'm'];
  }

  /** The text of row y and the newline after it, from background cur. */
  function LineText(cells: Cells, b: Box, y: int, cur: Attr): seq<char>
    requires b.minX <= b.maxX
  {
    var row := RowTokens(cells, b, y, Width(b));
    Render(row, cur) + SetBg(Last(row, cur), Default) + ['\n']
  }

  /** Rendering one more row appends that row, from the background in force,
      a reset to the default background if needed, and a newline. */
  lemma GridStep(cells: Cells, b: Box, n: nat, cur: Attr, body: seq<char>, line: seq<char>)
    requires b.minX <= b.maxX
    requires cur == Last(GridTokens(cells, b, n), Default)
    requires body == Render(GridTokens(cells, b, n), Default)
    requires line == LineText(cells, b, b.minY + n, cur)
    ensures body + line == Render(GridTokens(cells, b, n + 1), Default)
    ensures Last(GridTokens(cells, b, n + 1), Default) == Default
  {
    var done := GridTokens(cells, b, n);
    var row := RowTokens(cells, b, b.minY + n, Width(b));
    var closed := row + [Newline(Default)];
    ClosedRow(row, cur);
    RenderAppend(done, closed, Default);
    assert GridTokens(cells, b, n + 1) == done + closed;
  }

  /** A row closed by a newline renders as the row, a reset to the default
      background if needed and the newline, and leaves the default in force. */
  lemma ClosedRow(row: seq<Token>, cur: Attr)
    ensures Render(row + [Newline(Default)], cur) == Render(row, cur) + SetBg(Last(row, cur), Default) + ['\n']
    ensures Last(row + [Newline(Default)], cur) == Default
  {
    RenderAppend(row, [Newline(Default)], cur);
    assert Render([Newline(Default)], Last(row, cur)) == SetBg(Last(row, cur), Default) + ['\n'];
  }

  /** One row of the box, from background cur. */
  method ComposeRow(cells: Cells, b: Box, y: int, cur: Attr) returns (text: seq<char>, last: Attr)
    requires b.minX <= b.maxX
    ensures RowComposed(cells, b, y, Width(b), cur, text, last)
  {
    text, last := [], cur;
    var x := b.minX;
    while x <= b.maxX
      invariant b.minX <= x <= b.maxX + 1
      invariant RowComposed(cells, b, y, x - b.minX, cur, text, last)
    {
      text, last := ComposeCell(cells, b, y, x - b.minX, cur, text, last);
      x := x + 1;
    }
  }

  /** The text and background once the first n cells of row y are rendered
      from background cur. */
  predicate RowComposed(cells: Cells, b: Box, y: int, n: nat, cur: Attr, text: seq<char>, last: Attr) {
    text == Render(RowTokens(cells, b, y, n), cur) && last == Last(RowTokens(cells, b, y, n), cur)
  }

  /** The body of ComposeRow's loop: the cell at column b.minX + n. */
  method ComposeCell(cells: Cells, b: Box, y: int, n: nat, cur: Attr, text: seq<char>, last: Attr)
    returns (text': seq<char>, last': Attr)
    requires RowComposed(cells, b, y, n, cur, text, last)
    ensures RowComposed(cells, b, y, n + 1, cur, text', last')
  {
    var bg, ch := ShownCell(cells, b.minX + n, y);
    RenderSnoc(RowTokens(cells, b, y, n), Paint(bg, ch), cur);
    var emit;
    emit, last' := SetBackground(last, bg);
    text' := text + emit + [ch];
  }

  /** The background and rune drawFrame shows at (x, y). */
  method ShownCell(cells: Cells, x: int, y: int) returns (bg: Attr, ch: char)
    ensures Paint(bg, ch) == Shown(cells, x, y)
  {
    ch := ' ';
    bg := Default;
    if y in cells && x in cells[y] {
      var cell := cells[y][x];
      if cell.ch != '\0' {
        ch := cell.ch;
      }
      bg := cell.bg;
    }
  }

  /** Rendering one more token appends its background switch and its glyph. */
  lemma RenderSnoc(toks: seq<Token>, t: Token, cur: Attr)
    ensures Render(toks + [t], cur) == Render(toks, cur) + SetBg(Last(toks, cur), t.bg) + [Glyph(t)]
    ensures Last(toks + [t], cur) == t.bg
  {
    RenderAppend(toks, [t], cur);
  }

  /** A row of the box and the newline after it, on the default
      background. */
  method ComposeLine(cells: Cells, b: Box, y: int, cur: Attr) returns (line: seq<char>, last: Attr)
    requires b.minX <= b.maxX
    ensures line == LineText(cells, b, y, cur)
    ensures last == Default
  {
    var text, emit;
    text, last := ComposeRow(cells, b, y, cur);
    emit, last := SetBackground(last, Default);
    line := text + emit + ['\n'];
  }

  /** drawFrame after the entities are drawn: the box, then every row of it
      followed by a newline on the default background. */
  method Compose(cells: Cells) returns (b: Box, out: seq<char>)
    ensures IsBounds(cells, b)
    ensures b.minX <= b.maxX && b.minY <= b.maxY && out == Frame(cells, b)
  {
    b := ComputeBounds(cells);
    out := ComposeBox(cells, b);
  }

  /** The rows composed so far, followed by row n of the box. */
  method ComposeNext(cells: Cells, b: Box, n: nat, body: seq<char>, cur: Attr) returns (body': seq<char>, cur': Attr)
    requires b.minX <= b.maxX && Composed(cells, b, n, body, cur)
    ensures Composed(cells, b, n + 1, body', cur')
  {
    var line;
    line, cur' := ComposeLine(cells, b, b.minY + n, cur);
    GridStep(cells, b, n, cur, body, line);
    body' := body + line;
  }

  /** The text and current background once the first n rows are rendered. */
  predicate Composed(cells: Cells, b: Box, n: nat, body: seq<char>, cur: Attr)
    requires b.minX <= b.maxX
  {
    body == Render(GridTokens(cells, b, n), Default) && cur == Last(GridTokens(cells, b, n), Default)
  }

  /** The frame text for the box b. */
  method ComposeBox(cells: Cells, b: Box) returns (out: seq<char>)
    requires b.minX <= b.maxX && b.minY <= b.maxY
    ensures out == Frame(cells, b)
  {
    var body, cur := ComposeRows(cells, b);
    FrameOfGrid(cells, b, body, cur);
    out := Prefix + body + Suffix;
  }

  /** The loop of ComposeBox over the rows of b, top to bottom. */
  method ComposeRows(cells: Cells, b: Box) returns (body: seq<char>, cur: Attr)
    requires b.minX <= b.maxX && b.minY <= b.maxY
    ensures Composed(cells, b, Height(b), body, cur)
  {
    body, cur := [], Default;
    var n: nat := 0;
    while n < Height(b)
      invariant n <= Height(b) && Composed(cells, b, n, body, cur)
    {
      body, cur := ComposeNext(cells, b, n, body, cur);
      n := n + 1;
    }
  }

  /** All Height(b) rows rendered, wrapped in the prefix and suffix, are the frame. */
  lemma FrameOfGrid(cells: Cells, b: Box, body: seq<char>, cur: Attr)
    requires b.minX <= b.maxX && b.minY <= b.maxY
    requires Composed(cells, b, Height(b), body, cur)
    ensures Prefix + body + Suffix == Frame(cells, b)
  {
  }

  /** A token the terminal shows as it is: no ESC or newline in a cell. */
  predicate PlainTokens(toks: seq<Token>) {
    forall i :: 0 <= i < |toks| ==> (toks[i].Paint? ==> toks[i].ch != Escape && toks[i].ch != '\n')
  }

  /** A terminal reading the text: an SGR 40..49 sets the background, a
      newline ends a row on the current background, any other character is
      painted on it. */
  function Interpret(s: seq<char>, cur: Attr): seq<Token>
    decreases |s|
  {
    if s == [] then []
    else if |s| >= 5 && s[0] == Escape && s[1] == '[' && s[2] == '4' && '0' <= s[3] <= '9' && s[4] == 'm' then
      var next := AttrOfCode(40 + (s[3] as int - '0' as int));
      Interpret(s[5..], if next.Some? then next.value else cur)
    else if s[0] == '\n' then [Newline(cur)] + Interpret(s[1..], cur)
    else [Paint(cur, s[0])] + Interpret(s[1..], cur)
  }

  lemma InterpretSgr(a: Attr, s: seq<char>, cur: Attr)
    ensures Interpret(Sgr(a) + s, cur) == Interpret(s, a)
  {
    CodeRoundTrip(a);
    assert (Sgr(a) + s)[5..] == s;
  }

  /** The terminal shows exactly the tokens drawFrame rendered, each on its
      own background. */
  lemma {:induction false} InterpretRender(toks: seq<Token>, cur: Attr)
    requires PlainTokens(toks)
    ensures Interpret(Render(toks, cur), cur) == toks
    decreases |toks|
  {
    if toks != [] {
      var t := toks[0];
      var rest := Render(toks[1..], t.bg);
      assert PlainTokens(toks[1..]) by {
        forall i | 0 <= i < |toks[1..]| ensures (toks[1..][i].Paint? ==> toks[1..][i].ch != Escape && toks[1..][i].ch != '\n') {
          assert toks[1..][i] == toks[i + 1];
        }
      }
      InterpretRender(toks[1..], t.bg);
      assert t.Paint? ==> t.ch != Escape && t.ch != '\n';
      assert Interpret([Glyph(t)] + rest, t.bg) == [t] + Interpret(rest, t.bg) by {
        assert ([Glyph(t)] + rest)[1..] == rest;
      }
      if t.bg != cur {
        InterpretSgr(t.bg, [Glyph(t)] + rest, cur);
        assert Render(toks, cur) == Sgr(t.bg) + ([Glyph(t)] + rest);
      } else {
        assert Render(toks, cur) == [Glyph(t)] + rest;
      }
    }
  }

  lemma {:induction false} ShownPlain(cells: Cells, b: Box, n: nat)
    requires b.minX <= b.maxX
    requires forall x, y :: Lookup(cells, x, y).Some? ==> Lookup(cells, x, y).value.ch != Escape && Lookup(cells, x, y).value.ch != '\n'
    ensures PlainTokens(GridTokens(cells, b, n))
    decreases n
  {
    if n > 0 {
      ShownPlain(cells, b, n - 1);
      RowTokensAt(cells, b, b.minY + n - 1, Width(b));
    }
  }

  /** Read by a terminal, the body of a frame is the box's tokens, row
      after row, one per position (GridTokensAt says which). */
  lemma FrameShowsGrid(cells: Cells, b: Box)
    requires IsBounds(cells, b)
    requires forall x, y :: Lookup(cells, x, y).Some? ==> Lookup(cells, x, y).value.ch != Escape && Lookup(cells, x, y).value.ch != '\n'
    ensures Interpret(Render(Tokens(cells, b), Default), Default) == Tokens(cells, b)
    ensures |Tokens(cells, b)| == Height(b) * (Width(b) + 1)
  {
    ShownPlain(cells, b, Height(b));
    InterpretRender(Tokens(cells, b), Default);
    GridTokensLength(cells, b, Height(b));
  }
}
