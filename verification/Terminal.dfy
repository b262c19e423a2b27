/**
  `TerminalWriter` (kernel/src/terminal_out.rs): a cursor in a window, and the
  drawing methods.  Pixels are addressed inside the window; Windows says which
  bytes they are.  `WritePixel` demands a pixel of the window, so that every
  method that calls it is proved to draw inside the window.
 */
module Terminal {
  import opened Words
  import opened Arithmetic

  datatype Color = Color(r: Byte, g: Byte, b: Byte)

  // ------------------------------------------------------------------- the cursor alone

  /** Window size, line height and glyph width. */
  datatype Metrics = Metrics(width: nat, height: nat, lineHeight: nat, charWidth: nat)

  /** One line and one glyph fit into the window. */
  predicate Fits(m: Metrics) { 0 < m.lineHeight <= m.height && 0 < m.charWidth <= m.width }

  datatype Cursor = Cursor(x: nat, y: nat)

  /** The cursor is inside: a whole line fits below it. */
  predicate Inside(m: Metrics, c: Cursor) { c.x <= m.width && c.y + m.lineHeight <= m.height }

  function NewlineCursor(m: Metrics, c: Cursor): (c': Cursor)
  {
    if c.y + m.lineHeight + m.lineHeight > m.height then Cursor(0, 0) else Cursor(0, c.y + m.lineHeight)
  }

  /** Where `write_raw_char` draws: it starts a new line if the glyph would reach the right edge. */
  function DrawCursor(m: Metrics, c: Cursor): (c': Cursor)
  {
    if c.x + m.charWidth >= m.width then NewlineCursor(m, c) else c
  }

  function RawCursor(m: Metrics, c: Cursor): (c': Cursor)
  {
    var d := DrawCursor(m, c);
    Cursor(d.x + m.charWidth, d.y)
  }

  /** The number of blanks a tab stands for. */
  function TabSpaces(m: Metrics, c: Cursor): (n: nat)
    requires m.charWidth > 0
  {
    if c.x == 0 then 4
    else
      var chars := c.x / m.charWidth;
      (chars + 1 + 4 - 1) / 4 * 4 - chars
  }

  function RawCursors(m: Metrics, c: Cursor, n: nat): (c': Cursor)
  {
    if n == 0 then c else RawCursor(m, RawCursors(m, c, n - 1))
  }

  function CharCursor(m: Metrics, c: Cursor, ch: char): (c': Cursor)
    requires m.charWidth > 0
  {
    if ch == '\n' then NewlineCursor(m, c)
    else if ch == '\r' then Cursor(0, c.y)
    else if ch == '\t' then RawCursors(m, c, TabSpaces(m, c))
    else RawCursor(m, c)
  }

  predicate Printable(ch: char) { ch != '\n' && ch != '\r' && ch != '\t' }

  /** The line below, or the top one if it does not fit. */
  function LineBelow(m: Metrics, y: nat): (y': nat)
    ensures y' == if y + 2 * m.lineHeight <= m.height then y + m.lineHeight else 0
  {
    NewlineCursor(m, Cursor(0, y)).y
  }

  /**
    How a character moves the cursor: a glyph that fits, one glyph to the right;
    one that does not, one glyph into the line below; a newline, to the start of
    the line below; a carriage return, to the start of its line.
   */
  lemma CharMoves(m: Metrics, c: Cursor, ch: char)
    requires m.charWidth > 0
    ensures Printable(ch) && c.x + m.charWidth < m.width ==> CharCursor(m, c, ch) == Cursor(c.x + m.charWidth, c.y)
    ensures Printable(ch) && c.x + m.charWidth >= m.width ==>
      CharCursor(m, c, ch) == Cursor(m.charWidth, LineBelow(m, c.y))
    ensures ch == '\n' ==> CharCursor(m, c, ch) == Cursor(0, LineBelow(m, c.y))
    ensures ch == '\r' ==> CharCursor(m, c, ch) == Cursor(0, c.y)
  {
  }

  /** A printable string that fits on its line ends as many glyphs further right. */
  lemma {:induction false} StringFits(m: Metrics, c: Cursor, s: string)
    requires m.charWidth > 0 && (forall k :: 0 <= k < |s| ==> Printable(s[k]))
    requires s == [] || c.x + |s| * m.charWidth < m.width
    ensures StrCursor(m, c, s) == Cursor(c.x + |s| * m.charWidth, c.y)
  {
    if s != [] {
      var init := s[..|s| - 1];
      assert |s| * m.charWidth == |init| * m.charWidth + m.charWidth;
      StringFits(m, c, init);
      CharMoves(m, StrCursor(m, c, init), s[|s| - 1]);
    }
  }

  /** What can happen to a writer: a character, a clear with or without a new font, a new window with or without one. */
  datatype Command =
    | Char(c: char)
    | Clear(lineHeight: nat, charWidth: nat)
    | SetWindow(metrics: Metrics)

  function CommandMetrics(m: Metrics, k: Command): (m': Metrics)
  {
    match k
    case Char(_) => m
    case Clear(lh, cw) => m.(lineHeight := lh, charWidth := cw)
    case SetWindow(m') => m'
  }

  function CommandCursor(m: Metrics, c: Cursor, k: Command): (c': Cursor)
    requires m.charWidth > 0
  {
    if k.Char? then CharCursor(m, c, k.c) else Cursor(0, 0)
  }

  lemma {:induction false} RawsInside(m: Metrics, c: Cursor, n: nat)
    requires Fits(m) && Inside(m, c)
    ensures Inside(m, RawCursors(m, c, n))
  {
    if n > 0 {
      RawsInside(m, c, n - 1);
    }
  }

  /** A tab is one to four blanks, as many as lead from the column it starts in to a multiple of four. */
  lemma TabStops(m: Metrics, c: Cursor)
    requires m.charWidth > 0
    ensures 1 <= TabSpaces(m, c) <= 4 && (c.x / m.charWidth + TabSpaces(m, c)) % 4 == 0
  {
    if c.x == 0 {
      DivUnique(0, m.charWidth, 0, 0);
    }
  }

  /** Blanks that all fit leave the cursor that many glyphs further right on its line. */
  lemma {:induction false} BlanksFit(m: Metrics, c: Cursor, n: nat)
    requires n == 0 || c.x + n * m.charWidth < m.width
    ensures RawCursors(m, c, n) == Cursor(c.x + n * m.charWidth, c.y)
  {
    if n > 0 {
      assert n * m.charWidth == (n - 1) * m.charWidth + m.charWidth;
      BlanksFit(m, c, n - 1);
    }
  }

  lemma {:induction false} BlanksSplit(m: Metrics, c: Cursor, k: nat, n: nat)
    requires k <= n
    ensures RawCursors(m, c, n) == RawCursors(m, RawCursors(m, c, k), n - k)
  {
    if k < n {
      BlanksSplit(m, c, k, n - 1);
    }
  }

  /** If only `k` of them fit, the others start the next line. */
  lemma BlanksWrap(m: Metrics, c: Cursor, k: nat, n: nat)
    requires k < n && (k == 0 || c.x + k * m.charWidth < m.width) && c.x + (k + 1) * m.charWidth >= m.width
    requires n - k == 1 || (n - k) * m.charWidth < m.width
    ensures RawCursors(m, c, n) == Cursor((n - k) * m.charWidth, NewlineCursor(m, c).y)
  {
    BlanksSplit(m, c, k, n);
    BlanksFit(m, c, k);
    var d := RawCursors(m, c, k);
    assert (k + 1) * m.charWidth == k * m.charWidth + m.charWidth;
    BlanksSplit(m, d, 1, n - k);
    var e := RawCursors(m, d, 1);
    assert e == RawCursor(m, RawCursors(m, d, 0)) == Cursor(m.charWidth, NewlineCursor(m, c).y);
    assert (n - k) * m.charWidth == m.charWidth + (n - k - 1) * m.charWidth;
    BlanksFit(m, e, n - k - 1);
  }

  /** How many of `n` blanks fit, if not all of them. */
  lemma {:induction false} FindWrap(m: Metrics, c: Cursor, n: nat) returns (k: nat)
    requires n > 0 && c.x + n * m.charWidth >= m.width
    ensures k < n && (k == 0 || c.x + k * m.charWidth < m.width) && c.x + (k + 1) * m.charWidth >= m.width
  {
    k := n - 1;
    if n > 1 && c.x + (n - 1) * m.charWidth >= m.width {
      k := FindWrap(m, c, n - 1);
    }
  }

  /**
    Where a tab ends.  From a whole column, in a window of more than four
    columns, the cursor ends in a column that is a multiple of four exactly if
    all its blanks fit on the line, or it is four blanks and none does; a tab
    that is split between two lines does not end at a tab stop.
   */
  lemma TabEnds(m: Metrics, c: Cursor, column: nat)
    requires m.charWidth > 0 && 4 * m.charWidth < m.width && c.x == column * m.charWidth
    ensures var n := TabSpaces(m, c); var d := CharCursor(m, c, '\t'); var fits := c.x + n * m.charWidth < m.width;
      && (fits ==> d == Cursor((column + n) * m.charWidth, c.y) && (column + n) % 4 == 0)
      && (!fits ==> d.y == NewlineCursor(m, c).y && d.x % m.charWidth == 0)
      && (d.x / m.charWidth % 4 == 0 <==> fits || (n == 4 && c.x + m.charWidth >= m.width))
  {
    DivUnique(c.x, m.charWidth, column, 0);
    TabStops(m, c);
    var n := TabSpaces(m, c);
    assert (column + n) * m.charWidth == c.x + n * m.charWidth;
    if c.x + n * m.charWidth < m.width {
      BlanksFit(m, c, n);
      DivUnique((column + n) * m.charWidth, m.charWidth, column + n, 0);
    } else {
      var k := FindWrap(m, c, n);
      MulMono(n - k, 4, m.charWidth);
      BlanksWrap(m, c, k, n);
      DivUnique((n - k) * m.charWidth, m.charWidth, n - k, 0);
      if k > 0 {
        MulMono(1, k, m.charWidth);
      }
    }
  }

  /** The state of the cursor after a list of commands. */
  function Play(m: Metrics, c: Cursor, ks: seq<Command>): (r: (Metrics, Cursor))
    requires m.charWidth > 0
    decreases |ks|
  {
    if ks == [] || CommandMetrics(m, ks[0]).charWidth == 0 then (m, c)
    else Play(CommandMetrics(m, ks[0]), CommandCursor(m, c, ks[0]), ks[1..])
  }

  /** Every window and font that the commands set leaves room for a line and a glyph. */
  predicate AllFit(m: Metrics, ks: seq<Command>)
    decreases |ks|
  {
    Fits(m) && (ks == [] || AllFit(CommandMetrics(m, ks[0]), ks[1..]))
  }

  /**
    Cursor safety: after every stream of commands a whole line fits below the
    cursor and it is not right of the window.
   */
  lemma {:induction false} CursorSafe(m: Metrics, c: Cursor, ks: seq<Command>)
    requires AllFit(m, ks) && Inside(m, c)
    ensures var r := Play(m, c, ks); Fits(r.0) && Inside(r.0, r.1)
    decreases |ks|
  {
    if ks != [] {
      var k := ks[0];
      assert AllFit(CommandMetrics(m, k), ks[1..]);
      if k.Char? && k.c == '\t' {
        RawsInside(m, c, TabSpaces(m, c));
      }
      CursorSafe(CommandMetrics(m, k), CommandCursor(m, c, k), ks[1..]);
    }
  }

  // ------------------------------------------------------------------------ pixels

  type Pixels = map<(nat, nat), Color>

  /** The window's pixel `c` right and `r` below (x0, y0). */
  function PixelAt(px: Pixels, x0: nat, y0: nat, c: nat, r: nat): (v: Option<Color>)
  {
    if (x0 + c, y0 + r) in px then Some(px[(x0 + c, y0 + r)]) else None
  }

  /** The checkerboard of the clear colour that a new line is painted with. */
  function Checker(c: Color, x: nat, y: nat): (v: Color)
  {
    if (x + y) % 2 == 0 then c else Color(c.r / 2, c.g / 2, c.b / 2)
  }

  function Min(a: nat, b: nat): (r: nat) { if a <= b then a else b }

  /** Rows `from` up to `to` are painted, everything else is as before. */
  ghost predicate Painted(before: Pixels, after: Pixels, width: nat, from: nat, to: nat, c: Color)
  {
    forall x: nat, y: nat ::
      PixelAt(after, 0, 0, x, y) == if from <= y < to &&
        x < width then Some(if (x + y) % 2 == 0 then c else Color(c.r / 2, c.g / 2, c.b / 2))
        else PixelAt(before, 0, 0, x, y)
  }

  /** The first `rows` rows have one colour, everything else is as before. */
  ghost predicate Filled(before: Pixels, after: Pixels, width: nat, rows: nat, c: Color)
  {
    forall x: nat, y: nat ::
      PixelAt(after, 0, 0, x, y) == if y < rows && x < width then Some(c) else PixelAt(before, 0, 0, x, y)
  }

  /** The glyph is drawn at `d`, everything else is as before. */
  ghost predicate GlyphDrawn(before: Pixels, after: Pixels, m: Metrics, d: Cursor, glyph: (nat, nat) -> Color)
  {
    forall x: nat, y: nat ::
      PixelAt(after, 0, 0, x, y) ==
        if d.x <= x < d.x + m.charWidth && d.y <= y < d.y + m.lineHeight then Some(glyph(x - d.x, y - d.y))
          else PixelAt(before, 0, 0, x, y)
  }

  /** The first `n` pixels of row `y` of the glyph are drawn, everything else is as before. */
  ghost predicate GlyphRow(before: Pixels, after: Pixels, d: Cursor, y: nat, n: nat, glyph: (nat, nat) -> Color)
  {
    forall i: nat, j: nat ::
      PixelAt(after, 0, 0, i, j) ==
        if j == d.y + y && d.x <= i < d.x + n then Some(glyph(i - d.x, y)) else PixelAt(before, 0, 0, i, j)
  }

  lemma GlyphPixel(before: Pixels, mid: Pixels, after: Pixels, d: Cursor, y: nat, n: nat, glyph: (nat, nat) -> Color)
    requires GlyphRow(before, mid, d, y, n, glyph) && after == mid[(d.x + n, d.y + y) := glyph(n, y)]
    ensures GlyphRow(before, after, d, y, n + 1, glyph)
  {
    forall i: nat, j: nat
      ensures PixelAt(after, 0, 0, i, j) ==
        if j == d.y + y && d.x <= i < d.x + (n + 1) then Some(glyph(i - d.x, y)) else PixelAt(before, 0, 0, i, j)
    {
      var was := PixelAt(mid, 0, 0, i, j);
      assert was == if j == d.y + y && d.x <= i < d.x + n then Some(glyph(i - d.x, y)) else PixelAt(before, 0, 0, i, j);
      if i == d.x + n && j == d.y + y {
        assert i - d.x == n;
      }
    }
  }

  /** What `newline` leaves: the colour rotated if it wrapped, the new line and the one below it painted. */
  ghost predicate LineStarted(m: Metrics, c: Cursor, color: Color, before: Pixels, color': Color, after: Pixels)
  {
    var d := NewlineCursor(m, c);
    && color' == (if d.y == 0 then Color(color.b, color.r, color.g) else color)
    && Painted(before, after, m.width, d.y, Min(d.y + m.lineHeight * 2, m.height), color')
  }

  /** What `write_raw_char` leaves: a new line first if there is no room, then the glyph. */
  ghost predicate RawWritten(m: Metrics, c: Cursor, color: Color, before: Pixels, color': Color, after: Pixels,
                             glyph: (nat, nat) -> Color)
  {
    if c.x + m.charWidth >= m.width
    then exists mid: Pixels ::
      LineStarted(m, c, color, before, color', mid) && GlyphDrawn(mid, after, m, NewlineCursor(m, c), glyph)
    else color' == color && GlyphDrawn(before, after, m, c, glyph)
  }

  /** `n` raw characters in a row, all with the same raster. */
  ghost predicate RawsWritten(m: Metrics, c: Cursor, color: Color, before: Pixels, color': Color, after: Pixels,
                              glyph: (nat, nat) -> Color, n: nat)
    decreases n
  {
    if n == 0 then color' == color && after == before
    else
      var d := RawCursors(m, c, n - 1);
      exists k: Color, mid: Pixels ::
        RawsWritten(m, c, color, before, k, mid, glyph, n - 1) && RawWritten(m, d, k, mid, color', after, glyph)
  }

  /** What `write_char` leaves. */
  ghost predicate CharWritten(m: Metrics, c: Cursor, color: Color, before: Pixels, color': Color, after: Pixels,
                              raster: char -> ((nat, nat) -> Color), ch: char)
    requires m.charWidth > 0
  {
    if ch == '\n' then LineStarted(m, c, color, before, color', after)
    else if ch == '\r' then color' == color && after == before
    else if ch == '\t' then RawsWritten(m, c, color, before, color', after, raster(' '), TabSpaces(m, c))
    else RawWritten(m, c, color, before, color', after, raster(ch))
  }

  /** What `write_str` leaves: one character after the other. */
  ghost predicate StrWritten(m: Metrics, c: Cursor, color: Color, before: Pixels, color': Color, after: Pixels,
                             raster: char -> ((nat, nat) -> Color), s: string)
    requires m.charWidth > 0
    decreases |s|
  {
    if s == [] then color' == color && after == before
    else
      var init := s[..|s| - 1];
      exists k: Color, mid: Pixels ::
        StrWritten(m, c, color, before, k, mid, raster, init) &&
          CharWritten(m, StrCursor(m, c, init), k, mid, color', after, raster, s[|s| - 1])
  }

  class TerminalWriter {
    var m: Metrics
    var cursor: Cursor
    var clearColor: Color
    var pixels: Pixels

    ghost predicate Valid()
      reads this
    {
      Fits(m) && Inside(m, cursor)
    }

    constructor (metrics: Metrics, color: Color)
      requires Fits(metrics)
      ensures Valid() && m == metrics && cursor == Cursor(0, 0)
    {
      m, cursor, clearColor, pixels := metrics, Cursor(0, 0), color, map[];
    }

    method WritePixel(x: nat, y: nat, color: Color)
      requires x < m.width && y < m.height
      modifies this`pixels
      ensures pixels == old(pixels)[(x, y) := color]
    {
      pixels := pixels[(x, y) := color];
    }

    /** `clear`, with the new line height and glyph width if the font changes. */
    method ClearWindow(font: Option<(nat, nat)>)
      requires var (lh, cw) := if font.Some? then font.value else (m.lineHeight, m.charWidth);
        Fits(m.(lineHeight := lh, charWidth := cw))
      modifies this
      ensures Valid() && cursor == Cursor(0, 0) && clearColor == old(clearColor)
      ensures m == if font.Some? then old(m).(lineHeight := font.value.0, charWidth := font.value.1) else old(m)
      ensures Filled(old(pixels), pixels, m.width, m.height, clearColor)
    {
      cursor := Cursor(0, 0);
      FillWindow();
      if font.Some? {
        m := m.(lineHeight := font.value.0, charWidth := font.value.1);
      }
    }

    method FillWindow()
      modifies this`pixels
      ensures Filled(old(pixels), pixels, m.width, m.height, clearColor)
    {
      for y := 0 to m.height
        invariant Filled(old(pixels), pixels, m.width, y, clearColor)
      {
        ghost var before := pixels;
        for x := 0 to m.width
          invariant forall i: nat, j: nat ::
            PixelAt(pixels, 0, 0, i, j) == if j == y && i < x then Some(clearColor) else PixelAt(before, 0, 0, i, j)
        {
          ghost var prev := pixels;
          WritePixel(x, y, clearColor);
          assert forall i: nat, j: nat {:trigger PixelAt(pixels, 0, 0, i, j)} ::
            PixelAt(pixels, 0, 0, i, j) == if i == x && j == y then Some(clearColor) else PixelAt(prev, 0, 0, i, j);
        }
      }
    }

    /** `set_window_info`: another window, whose pixels are not those of the old one, is cleared. */
    method SetWindowInfo(width: nat, height: nat, contents: Pixels, font: Option<(nat, nat)>)
      requires var (lh, cw) := if font.Some? then font.value else (m.lineHeight, m.charWidth);
        Fits(Metrics(width, height, lh, cw))
      modifies this
      ensures Valid() && cursor == Cursor(0, 0) && clearColor == old(clearColor)
      ensures m == if font.Some? then Metrics(width, height, font.value.0, font.value.1)
        else old(m).(width := width, height := height)
      ensures Filled(contents, pixels, width, height, clearColor)
    {
      m := m.(width := width, height := height);
      pixels := contents;
      ClearWindow(font);
    }

    /** The two painting loops of `newline`. */
    method PaintRows(from: nat, to: nat)
      requires to <= m.height
      modifies this`pixels
      ensures Painted(old(pixels), pixels, m.width, from, to, clearColor)
    {
      if from >= to {
        return;
      }
      for y := from to to
        invariant Painted(old(pixels), pixels, m.width, from, y, clearColor)
      {
        ghost var before := pixels;
        for x := 0 to m.width
          invariant forall i: nat, j: nat ::
            PixelAt(pixels, 0, 0, i, j) == if j == y && i < x then Some(Checker(clearColor, i, j))
              else PixelAt(before, 0, 0, i, j)
        {
          WritePixel(x, y, Checker(clearColor, x, y));
        }
      }
    }

    method Newline()
      requires Valid()
      modifies this
      ensures Valid() && m == old(m) && cursor == NewlineCursor(m, old(cursor))
      ensures LineStarted(m, old(cursor), old(clearColor), old(pixels), clearColor, pixels)
    {
      hide Painted;
      cursor := Cursor(0, cursor.y + m.lineHeight);
      if cursor.y + m.lineHeight > m.height {
        cursor := Cursor(0, 0);
        clearColor := Color(clearColor.b, clearColor.r, clearColor.g);
      }
      PaintRows(cursor.y, Min(cursor.y + m.lineHeight * 2, m.height));
    }

    /** `write_raw_char`; `glyph` gives the colour of each pixel of the raster. */
    method WriteRawChar(glyph: (nat, nat) -> Color)
      requires Valid()
      modifies this
      ensures Valid() && m == old(m) && cursor == RawCursor(m, old(cursor))
      ensures RawWritten(m, old(cursor), old(clearColor), old(pixels), clearColor, pixels, glyph)
    {
      hide LineStarted, GlyphDrawn;
      if cursor.x + m.charWidth >= m.width {
        Newline();
      }
      DrawGlyph(glyph);
      cursor := Cursor(cursor.x + m.charWidth, cursor.y);
    }

    /** `print_rasterized_char`. */
    method DrawGlyph(glyph: (nat, nat) -> Color)
      requires cursor.x + m.charWidth <= m.width && cursor.y + m.lineHeight <= m.height
      modifies this`pixels
      ensures GlyphDrawn(old(pixels), pixels, m, cursor, glyph)
    {
      for y := 0 to m.lineHeight
        invariant GlyphDrawn(old(pixels), pixels, m.(lineHeight := y), cursor, glyph)
      {
        ghost var before := pixels;
        for x := 0 to m.charWidth
          invariant GlyphRow(before, pixels, cursor, y, x, glyph)
        {
          ghost var mid := pixels;
          WritePixel(cursor.x + x, cursor.y + y, glyph(x, y));
          GlyphPixel(before, mid, pixels, cursor, y, x, glyph);
        }
      }
    }

    /** `write_char`. */
    method WriteChar(ch: char, raster: char -> ((nat, nat) -> Color))
      requires Valid()
      modifies this
      ensures Valid() && m == old(m) && cursor == CharCursor(m, old(cursor), ch)
      ensures CharWritten(m, old(cursor), old(clearColor), old(pixels), clearColor, pixels, raster, ch)
    {
      hide LineStarted, RawWritten;
      if ch == '\n' {
        Newline();
      } else if ch == '\r' {
        cursor := Cursor(0, cursor.y);
      } else if ch == '\t' {
        var spaces := TabSpaces(m, cursor);
        for k := 0 to spaces
          invariant Valid() && m == old(m) && cursor == RawCursors(m, old(cursor), k)
          invariant RawsWritten(m, old(cursor), old(clearColor), old(pixels), clearColor, pixels, raster(' '), k)
        {
          WriteRawChar(raster(' '));
        }
      } else {
        WriteRawChar(raster(ch));
      }
    }

    /** `write_str`: cursor and pixels follow the model through any string. */
    method WriteStr(s: string, raster: char -> ((nat, nat) -> Color))
      requires Valid()
      modifies this
      ensures Valid() && m == old(m) && cursor == StrCursor(m, old(cursor), s)
      ensures StrWritten(m, old(cursor), old(clearColor), old(pixels), clearColor, pixels, raster, s)
    {
      hide CharWritten;
      for k := 0 to |s|
        invariant Valid() && m == old(m) && cursor == StrCursor(m, old(cursor), s[..k])
        invariant StrWritten(m, old(cursor), old(clearColor), old(pixels), clearColor, pixels, raster, s[..k])
      {
        assert s[..k + 1][..k] == s[..k];
        WriteChar(s[k], raster);
      }
      assert s[..|s|] == s;
    }

    /**
      `print_pixels`.  Every colour is consumed once; there is one new line for
      each full block of `lineHeight` image rows and one for a started block;
      and if none of them wraps to the top, the image, clipped at the right
      edge, is where the cursor was.
     */
    method PrintPixels(width: nat, colors: seq<Color>) returns (newlines: nat)
      requires Valid() && width > 0
      modifies this
      ensures Valid() && m == old(m)
      ensures newlines == CeilDiv(|colors| / width, m.lineHeight)
      ensures old(cursor).y + (newlines + 1) * m.lineHeight <= m.height ==>
        && cursor.y == old(cursor).y + newlines * m.lineHeight
        && Shown(pixels, old(cursor).x, old(cursor).y, m.width, width, colors, |colors|)
    {
      hide Shown, RowDrawn, Painted, CeilDiv;
      var xOffset, yOffset := cursor.x, 0;
      NothingShown(pixels, xOffset, cursor.y, m.width, width, colors);
      ghost var y0, row := cursor.y, 0;
      ghost var wanted := CeilDiv(|colors| / width, m.lineHeight);
      ghost var noWrap := y0 + (wanted + 1) * m.lineHeight <= m.height;
      var next, done := 0, false;
      newlines := 0;
      while !done
        invariant Valid() && m == old(m) && yOffset < m.lineHeight && row == newlines * m.lineHeight + yOffset
        invariant next <= |colors| && row * width <= next < row * width + width
        invariant next == if done then |colors| else row * width
        invariant noWrap ==>
          cursor.y == y0 + newlines * m.lineHeight && Shown(pixels, xOffset, y0, m.width, width, colors, next)
        decreases |colors| - next, !done
      {
        var start := next;
        ghost var before := pixels;
        next := PrintRow(width, colors, next, xOffset, yOffset);
        if noWrap {
          ShownRow(before, pixels, xOffset, y0, m.width, width, colors, row);
        }
        if next < start + width {
          done := true;
        } else {
          NextProduct(row, width);
          row, yOffset := row + 1, yOffset + 1;
          if yOffset >= m.lineHeight {
            NextProduct(newlines, m.lineHeight);
            RowsWithin(row, width, |colors|);
            BlocksWithin(newlines + 1, m.lineHeight, |colors| / width);
            NewlineShowing(xOffset, y0, width, colors, row, row * width, newlines, wanted, noWrap);
            newlines, yOffset := newlines + 1, 0;
          }
        }
      }
      DivUnique(|colors|, width, row, next - row * width);
      LastBlock(newlines, yOffset, m.lineHeight);
      if yOffset != 0 {
        NextProduct(newlines, m.lineHeight);
        NewlineShowing(xOffset, y0, width, colors, row + 1, |colors|, newlines, wanted, noWrap);
        newlines := newlines + 1;
      }
    }

    /** A new line below `rows` image rows that hold `n` colours: if it does not wrap, they stay. */
    method NewlineShowing(xOffset: nat, ghost y0: nat, width: nat, colors: seq<Color>,
                          ghost rows: nat, ghost n: nat, newlines: nat, ghost wanted: nat, ghost noWrap: bool)
      requires Valid() && width > 0 && n <= |colors| && n <= rows * width && newlines + 1 <= wanted
      requires noWrap ==> cursor.y == y0 + newlines * m.lineHeight && y0 + (wanted + 1) * m.lineHeight <= m.height
      requires noWrap ==> Shown(pixels, xOffset, y0, m.width, width, colors, n) && rows <= (newlines + 1) * m.lineHeight
      modifies this
      ensures Valid() && m == old(m)
      ensures noWrap ==>
        cursor.y == y0 + (newlines + 1) * m.lineHeight && Shown(pixels, xOffset, y0, m.width, width, colors, n)
    {
      hide Shown, Painted;
      if noWrap {
        NextProduct(newlines, m.lineHeight);
        NextProduct(newlines + 1, m.lineHeight);
        MulMono(newlines + 2, wanted + 1, m.lineHeight);
      }
      ghost var before := pixels;
      Newline();
      if noWrap {
        ShownKept(before, pixels, xOffset, y0, m.width, width, colors, rows, n, m, cursor.y, clearColor);
      }
    }

    /** One row of the image: colours from `from` on, at most `width` of them, clipped at the window's right edge. */
    method PrintRow(width: nat, colors: seq<Color>, from: nat, xOffset: nat, yOffset: nat) returns (next: nat)
      requires cursor.y + yOffset < m.height && from <= |colors|
      modifies this`pixels
      ensures next == Min(from + width, |colors|)
      ensures RowDrawn(old(pixels), pixels, xOffset, cursor.y + yOffset, m.width, colors, from, next)
    {
      next := from;
      for x := 0 to width
        invariant next == from + x && next <= |colors|
        invariant RowDrawn(old(pixels), pixels, xOffset, cursor.y + yOffset, m.width, colors, from, next)
      {
        if next == |colors| {
          return;
        }
        ghost var before := pixels;
        if x + xOffset < m.width {
          WritePixel(x + xOffset, cursor.y + yOffset, colors[next]);
        }
        RowNext(old(pixels), before, pixels, xOffset, cursor.y + yOffset, m.width, colors, from, next);
        next := next + 1;
      }
    }
  }

  /** Colours `from` up to `next` are drawn at (x0, y) and on, up to the right edge; nothing else changed. */
  ghost predicate RowDrawn(before: Pixels, after: Pixels, x0: nat, y: nat, right: nat, colors: seq<Color>, from: nat,
                           next: nat)
    requires from <= next <= |colors|
  {
    forall i: nat, j: nat :: PixelAt(after, 0, 0, i, j) ==
      if j == y && x0 <= i < right && i - x0 < next - from then Some(colors[from + (i - x0)])
        else PixelAt(before, 0, 0, i, j)
  }

  function CeilDiv(a: nat, b: nat): (r: nat)
    requires b > 0
  {
    (a + b - 1) / b
  }

  /** The first `n` colours of an image of that width are at (x0, y0), as far as the window reaches to the right. */
  ghost predicate Shown(px: Pixels, x0: nat, y0: nat, right: nat, width: nat, colors: seq<Color>, n: nat)
    requires n <= |colors|
  {
    forall c: nat, r: nat :: c < width && r * width + c < n && x0 + c < right ==>
      PixelAt(px, x0, y0, c, r) == Some(colors[r * width + c])
  }

  lemma RowNext(px: Pixels, mid: Pixels, px': Pixels, x0: nat, y: nat, right: nat, colors: seq<Color>, from: nat,
                next: nat)
    requires from <= next < |colors| && RowDrawn(px, mid, x0, y, right, colors, from, next)
    requires var x := x0 + (next - from); px' == if x < right then mid[(x, y) := colors[next]] else mid
    ensures RowDrawn(px, px', x0, y, right, colors, from, next + 1)
  {
    forall i: nat, j: nat
      ensures PixelAt(px', 0, 0, i, j) ==
        if j == y && x0 <= i < right && i - x0 < next + 1 - from then Some(colors[from + (i - x0)])
        else PixelAt(px, 0, 0, i, j)
    {
      var was := PixelAt(mid, 0, 0, i, j);
      assert was == if j == y && x0 <= i < right && i - x0 < next - from then Some(colors[from + (i - x0)])
        else PixelAt(px, 0, 0, i, j);
    }
  }

  lemma ShownRow(px: Pixels, px': Pixels, x0: nat, y0: nat, right: nat, width: nat, colors: seq<Color>, row: nat)
    requires width > 0 && row * width <= |colors| && Shown(px, x0, y0, right, width, colors, row * width)
    requires RowDrawn(px, px', x0, y0 + row, right, colors, row * width, Min(row * width + width, |colors|))
    ensures Shown(px', x0, y0, right, width, colors, Min(row * width + width, |colors|))
  {
    var n := Min(row * width + width, |colors|);
    forall c: nat, r: nat | c < width && r * width + c < n && x0 + c < right
      ensures PixelAt(px', x0, y0, c, r) == Some(colors[r * width + c])
    {
      assert PixelAt(px', x0, y0, c, r) == PixelAt(px', 0, 0, x0 + c, y0 + r);
      if r < row {
        RowOrder(r, c, row, width);
        assert PixelAt(px, x0, y0, c, r) == PixelAt(px, 0, 0, x0 + c, y0 + r);
      } else if r > row {
        MulMono(row + 1, r, width);
      }
    }
  }

  /** Painting below the rows shown so far keeps them. */
  lemma ShownKept(px: Pixels, px': Pixels, x0: nat, y0: nat, right: nat, width: nat, colors: seq<Color>,
                  rows: nat, n: nat, m: Metrics, y: nat, color: Color)
    requires width > 0 && n <= |colors| && n <= rows * width && Shown(px, x0, y0, right, width, colors, n)
    requires Painted(px, px', m.width, y, Min(y + m.lineHeight * 2, m.height), color) && y >= y0 + rows
    ensures Shown(px', x0, y0, right, width, colors, n)
  {
    forall c: nat, r: nat | c < width && r * width + c < n && x0 + c < right
      ensures PixelAt(px', x0, y0, c, r) == Some(colors[r * width + c])
    {
      if r >= rows {
        MulMono(rows, r, width);
      }
      assert PixelAt(px', x0, y0, c, r) == PixelAt(px', 0, 0, x0 + c, y0 + r);
      assert PixelAt(px, x0, y0, c, r) == PixelAt(px, 0, 0, x0 + c, y0 + r);
    }
  }

  lemma NextProduct(a: nat, d: nat)
    ensures (a + 1) * d == a * d + d
  {
  }

  lemma NothingShown(px: Pixels, x0: nat, y0: nat, right: nat, width: nat, colors: seq<Color>)
    ensures Shown(px, x0, y0, right, width, colors, 0)
  {
  }

  lemma RowsWithin(row: nat, width: nat, n: nat)
    requires width > 0 && row * width <= n
    ensures row <= n / width
  {
    DivMono(row * width, n, width);
    DivUnique(row * width, width, row, 0);
  }

  /** `k` full blocks of rows need at most the number of new lines the image needs. */
  lemma BlocksWithin(k: nat, lineHeight: nat, rows: nat)
    requires lineHeight > 0 && k * lineHeight <= rows
    ensures k <= CeilDiv(rows, lineHeight)
  {
    DivMono(k * lineHeight, rows + lineHeight - 1, lineHeight);
    DivUnique(k * lineHeight, lineHeight, k, 0);
  }

  lemma LastBlock(k: nat, rest: nat, lineHeight: nat)
    requires rest < lineHeight
    ensures CeilDiv(k * lineHeight + rest, lineHeight) == k + (if rest == 0 then 0 else 1)
  {
    if rest == 0 {
      DivUnique(k * lineHeight + lineHeight - 1, lineHeight, k, lineHeight - 1);
    } else {
      assert k * lineHeight + rest + lineHeight - 1 == (k + 1) * lineHeight + (rest - 1);
      DivUnique(k * lineHeight + rest + lineHeight - 1, lineHeight, k + 1, rest - 1);
    }
  }

  function StrCursor(m: Metrics, c: Cursor, s: string): (c': Cursor)
    requires m.charWidth > 0
  {
    if s == [] then c else CharCursor(m, StrCursor(m, c, s[..|s| - 1]), s[|s| - 1])
  }
}
