/**
  Terminal windows (`WindowInfo` in kernel/src/terminal_out.rs and
  `get_window_info_for_core` in kernel/src/common_main.rs): cutting the screen
  into cells, the bytes a window's pixels occupy, and why cores that draw into
  different cells do not disturb each other.
 */
module Windows {
  import opened Words
  import opened Arithmetic

  /** The frame buffer's geometry; `stride` is in pixels. */
  datatype Screen = Screen(width: nat, height: nat, stride: nat, bpp: nat)

  predicate Valid(s: Screen) { s.width <= s.stride && s.bpp > 0 }

  // ------------------------------------------------------------------------ tiling

  /** Left or upper edge of part `i` when `size` pixels are cut into `div` parts. */
  function Cut(i: nat, size: nat, div: nat): (p: nat)
    requires div > 0
  {
    i * size / div
  }

  lemma CutMono(i: nat, j: nat, size: nat, div: nat)
    requires i <= j && div > 0
    ensures Cut(i, size, div) <= Cut(j, size, div)
  {
    MulMono(i, j, size);
    DivMono(i * size, j * size, div);
  }

  lemma CutEnds(size: nat, div: nat)
    requires div > 0
    ensures Cut(0, size, div) == 0 && Cut(div, size, div) == size
  {
    DivUnique(0, div, 0, 0);
    DivUnique(div * size, div, size, 0);
  }

  /** Part `i` holds pixel `x`. */
  predicate InPart(x: nat, i: nat, size: nat, div: nat)
    requires div > 0
  {
    Cut(i, size, div) <= x < Cut(i + 1, size, div)
  }

  lemma {:induction false} FindPart(x: nat, size: nat, div: nat, n: nat) returns (i: nat)
    requires div > 0 && x < Cut(n, size, div)
    ensures i < n && InPart(x, i, size, div)
  {
    hide Cut;
    if n == 0 {
      CutEnds(size, div);
      assert false;
    } else if x >= Cut(n - 1, size, div) {
      i := n - 1;
    } else {
      i := FindPart(x, size, div, n - 1);
    }
  }

  lemma PartUnique(x: nat, i: nat, j: nat, size: nat, div: nat)
    requires div > 0 && InPart(x, i, size, div) && InPart(x, j, size, div)
    ensures i == j
  {
    hide Cut;
    if i < j {
      CutMono(i + 1, j, size, div);
    } else if j < i {
      CutMono(j + 1, i, size, div);
    }
  }

  /** One cell of a grid of `xDiv` by `yDiv`. */
  datatype Cell = Cell(x: nat, y: nat)

  datatype Grid = Grid(xDiv: nat, yDiv: nat)

  predicate InGrid(c: Cell, g: Grid) { c.x < g.xDiv && c.y < g.yDiv }

  predicate Holds(s: Screen, g: Grid, c: Cell, px: nat, py: nat)
    requires g.xDiv > 0 && g.yDiv > 0
  {
    InPart(px, c.x, s.width, g.xDiv) && InPart(py, c.y, s.height, g.yDiv)
  }

  /**
    The cells partition the screen: every pixel lies in exactly one cell of the
    grid, and cells hold screen pixels only.
   */
  lemma CellsPartition(s: Screen, g: Grid, px: nat, py: nat)
    requires g.xDiv > 0 && g.yDiv > 0
    ensures (exists c: Cell :: InGrid(c, g) && Holds(s, g, c, px, py)) <==> px < s.width && py < s.height
    ensures forall c: Cell, d: Cell :: Holds(s, g, c, px, py) && Holds(s, g, d, px, py) ==> c == d
  {
    hide Cut;
    CutEnds(s.width, g.xDiv);
    CutEnds(s.height, g.yDiv);
    if px < s.width && py < s.height {
      var i := FindPart(px, s.width, g.xDiv, g.xDiv);
      var j := FindPart(py, s.height, g.yDiv, g.yDiv);
      assert InGrid(Cell(i, j), g) && Holds(s, g, Cell(i, j), px, py);
    }
    if c: Cell :| InGrid(c, g) && Holds(s, g, c, px, py) {
      CutMono(c.x + 1, g.xDiv, s.width, g.xDiv);
      CutMono(c.y + 1, g.yDiv, s.height, g.yDiv);
    }
    forall c: Cell, d: Cell | Holds(s, g, c, px, py) && Holds(s, g, d, px, py) ensures c == d {
      PartUnique(px, c.x, d.x, s.width, g.xDiv);
      PartUnique(py, c.y, d.y, s.height, g.yDiv);
    }
  }

  // ----------------------------------------------------------------------- windows

  datatype Window = Window(byteOffset: nat, width: nat, height: nat) | Rejected

  /** `WindowInfo::new`, which compares the lower edge with the screen's width. */
  function NewWindow(s: Screen, x: nat, y: nat, w: nat, h: nat): (r: Window)
  {
    if x + w <= s.width && y + h <= s.width then Window((y * s.stride + x) * s.bpp, w, h) else Rejected
  }

  /** `WindowInfo::from_placement` for a cell of size one. */
  function CellWindow(s: Screen, g: Grid, c: Cell): (r: Window)
    requires g.xDiv > 0 && g.yDiv > 0
  {
    var x, x' := Cut(c.x, s.width, g.xDiv), Cut(c.x + 1, s.width, g.xDiv);
    var y, y' := Cut(c.y, s.height, g.yDiv), Cut(c.y + 1, s.height, g.yDiv);
    if x <= x' && y <= y' then NewWindow(s, x, y, x' - x, y' - y) else Rejected
  }

  lemma CutIs(c: Cell, s: Screen, g: Grid)
    requires g.xDiv > 0 && g.yDiv > 0
    ensures Cut(c.x, s.width, g.xDiv) == c.x * s.width / g.xDiv && Cut(c.y, s.height, g.yDiv) == c.y * s.height / g.yDiv
    ensures Cut(c.x + 1, s.width, g.xDiv) == (c.x + 1) * s.width / g.xDiv
    ensures Cut(c.y + 1, s.height, g.yDiv) == (c.y + 1) * s.height / g.yDiv
  {
  }

  /**
    A cell in a column of the grid, in whatever row, gets its window exactly if
    its lower edge is within the screen's width; so on a screen that is at least
    as wide as high, every cell of the grid does.
   */
  lemma CellAccepted(s: Screen, g: Grid, c: Cell)
    requires g.xDiv > 0 && g.yDiv > 0 && c.x < g.xDiv
    ensures CellWindow(s, g, c).Window? <==> Cut(c.y + 1, s.height, g.yDiv) <= s.width
    ensures s.height <= s.width && c.y < g.yDiv ==> CellWindow(s, g, c).Window?
    ensures var left, right := c.x * s.width / g.xDiv, (c.x + 1) * s.width / g.xDiv;
      var top, bottom := c.y * s.height / g.yDiv, (c.y + 1) * s.height / g.yDiv;
      left <= right && top <= bottom && (CellWindow(s, g, c).Window? ==>
        CellWindow(s, g, c) == Window((top * s.stride + left) * s.bpp, right - left, bottom - top))
  {
    CutIs(c, s, g);
    hide Cut;
    CutMono(c.x, c.x + 1, s.width, g.xDiv);
    CutMono(c.y, c.y + 1, s.height, g.yDiv);
    CutMono(c.x + 1, g.xDiv, s.width, g.xDiv);
    CutEnds(s.width, g.xDiv);
    CutEnds(s.height, g.yDiv);
    if c.y < g.yDiv {
      CutMono(c.y + 1, g.yDiv, s.height, g.yDiv);
    }
  }

  /** On a screen that is higher than wide, the full-screen placement is rejected. */
  lemma PortraitRejected(s: Screen)
    requires s.height > s.width
    ensures CellWindow(s, Grid(1, 1), Cell(0, 0)) == Rejected
  {
    CellAccepted(s, Grid(1, 1), Cell(0, 0));
    CutEnds(s.height, 1);
  }

  // ------------------------------------------------------------------------- bytes

  /** Byte `k` of screen pixel (px, py). */
  function ByteOf(s: Screen, px: nat, py: nat, k: nat): (a: nat) { (py * s.stride + px) * s.bpp + k }

  /** The index `write_pixel` computes inside its slice, seen from the start of the frame buffer. */
  lemma WindowByte(s: Screen, x: nat, y: nat, wx: nat, wy: nat, k: nat)
    ensures (y * s.stride + x) * s.bpp + ((wy * s.stride + wx) * s.bpp + k) == ByteOf(s, x + wx, y + wy, k)
  {
    assert y * s.stride + wy * s.stride == (y + wy) * s.stride;
    assert (y * s.stride + x) * s.bpp + (wy * s.stride + wx) * s.bpp ==
      (y * s.stride + x + (wy * s.stride + wx)) * s.bpp;
  }

  /** Different pixels have different bytes. */
  lemma BytesApart(s: Screen, px: nat, py: nat, k: nat, px': nat, py': nat, k': nat)
    requires Valid(s) && px < s.stride && px' < s.stride && k < s.bpp && k' < s.bpp
    ensures ByteOf(s, px, py, k) == ByteOf(s, px', py', k') ==> px == px' && py == py' && k == k'
  {
    if ByteOf(s, px, py, k) == ByteOf(s, px', py', k') {
      RowColumn(py * s.stride + px, k, py' * s.stride + px', k', s.bpp);
      RowColumn(py, px, py', px', s.stride);
    }
  }

  /** The bytes of a screen pixel are inside stride * height * bpp. */
  lemma ByteInside(s: Screen, px: nat, py: nat, k: nat)
    requires Valid(s) && px < s.stride && py < s.height && k < s.bpp
    ensures ByteOf(s, px, py, k) < s.stride * s.height * s.bpp
  {
    RowOrder(py, px, s.height, s.stride);
    RowOrder(py * s.stride + px, k, s.height * s.stride, s.bpp);
  }

  /** Inside a window's own slice, which may overhang the buffer, the index of a window pixel is in range. */
  lemma IndexInSlice(s: Screen, wx: nat, wy: nat, h: nat, k: nat)
    requires Valid(s) && wx < s.stride && wy < h && k < s.bpp
    ensures (wy * s.stride + wx) * s.bpp + k < s.stride * h * s.bpp
  {
    RowOrder(wy, wx, h, s.stride);
    RowOrder(wy * s.stride + wx, k, h * s.stride, s.bpp);
  }

  // -------------------------------------------------------------- many writers at once

  /** One `write_pixel` by the writer of cell `cell`, at its window's pixel (x, y). */
  datatype Event = Event(cell: Cell, x: nat, y: nat, bytes: seq<Byte>)

  function OriginX(s: Screen, g: Grid, c: Cell): (x: nat) requires g.xDiv > 0 { Cut(c.x, s.width, g.xDiv) }
  function OriginY(s: Screen, g: Grid, c: Cell): (y: nat) requires g.yDiv > 0 { Cut(c.y, s.height, g.yDiv) }

  /** The writer stays inside its window and writes at most a pixel's bytes. */
  predicate Proper(s: Screen, g: Grid, e: Event)
    requires g.xDiv > 0 && g.yDiv > 0
  {
    && InGrid(e.cell, g) && |e.bytes| <= s.bpp
    && OriginX(s, g, e.cell) + e.x < Cut(e.cell.x + 1, s.width, g.xDiv)
    && OriginY(s, g, e.cell) + e.y < Cut(e.cell.y + 1, s.height, g.yDiv)
  }

  /** The first byte of the event: base of the writer's slice, plus the index that `write_pixel` computes. */
  function Target(s: Screen, g: Grid, e: Event): (a: nat)
    requires g.xDiv > 0 && g.yDiv > 0
  {
    (OriginY(s, g, e.cell) * s.stride + OriginX(s, g, e.cell)) * s.bpp + (e.y * s.stride + e.x) * s.bpp
  }

  function Put(buf: seq<Byte>, a: nat, bytes: seq<Byte>): (r: seq<Byte>)
    ensures |r| == |buf|
  {
    if a + |bytes| <= |buf| then buf[..a] + bytes + buf[a + |bytes|..] else buf
  }

  function Draw(s: Screen, g: Grid, buf: seq<Byte>, events: seq<Event>): (r: seq<Byte>)
    requires g.xDiv > 0 && g.yDiv > 0
    ensures |r| == |buf|
  {
    if events == [] then buf
    else
      var e := events[|events| - 1];
      Put(Draw(s, g, buf, events[..|events| - 1]), Target(s, g, e), e.bytes)
  }

  /** The events of one cell's writer, in order. */
  function OnlyOf(events: seq<Event>, c: Cell): (r: seq<Event>)
  {
    if events == [] then []
    else
      var rest := OnlyOf(events[..|events| - 1], c);
      if events[|events| - 1].cell == c then rest + [events[|events| - 1]] else rest
  }

  ghost predicate AllProper(s: Screen, g: Grid, events: seq<Event>)
    requires g.xDiv > 0 && g.yDiv > 0
  {
    forall k :: 0 <= k < |events| ==> Proper(s, g, events[k])
  }

  /** An event changes bytes of one pixel of its own cell, inside the buffer. */
  lemma EventBytes(s: Screen, g: Grid, e: Event)
    requires Valid(s) && g.xDiv > 0 && g.yDiv > 0 && Proper(s, g, e)
    ensures var px, py := OriginX(s, g, e.cell) + e.x, OriginY(s, g, e.cell) + e.y;
      && Target(s, g, e) == ByteOf(s, px, py, 0) && Holds(s, g, e.cell, px, py) && px < s.width && py < s.height
      && Target(s, g, e) + |e.bytes| <= s.stride * s.height * s.bpp && |e.bytes| <= s.bpp
  {
    var px, py := OriginX(s, g, e.cell) + e.x, OriginY(s, g, e.cell) + e.y;
    WindowByte(s, OriginX(s, g, e.cell), OriginY(s, g, e.cell), e.x, e.y, 0);
    hide Cut;
    CellsPartition(s, g, px, py);
    assert Holds(s, g, e.cell, px, py);
    ByteInside(s, px, py, s.bpp - 1);
  }

  /** An event of another cell's writer leaves the bytes of this cell's pixels alone. */
  lemma OtherCellUntouched(s: Screen, g: Grid, e: Event, c: Cell, px: nat, py: nat, k: nat, buf: seq<Byte>)
    requires Valid(s) && g.xDiv > 0 && g.yDiv > 0 && Proper(s, g, e) && e.cell != c && InGrid(c, g)
    requires Holds(s, g, c, px, py) && k < s.bpp && |buf| >= s.stride * s.height * s.bpp
    ensures ByteOf(s, px, py, k) < |buf|
    ensures Put(buf, Target(s, g, e), e.bytes)[ByteOf(s, px, py, k)] == buf[ByteOf(s, px, py, k)]
  {
    EventBytes(s, g, e);
    CellsPartition(s, g, px, py);
    var a, t := ByteOf(s, px, py, k), Target(s, g, e);
    ByteInside(s, px, py, k);
    if t <= a < t + |e.bytes| {
      var ex, ey := OriginX(s, g, e.cell) + e.x, OriginY(s, g, e.cell) + e.y;
      assert a == ByteOf(s, ex, ey, a - t);
      BytesApart(s, px, py, k, ex, ey, a - t);
      CellsPartition(s, g, px, py);
    }
  }

  lemma SameByte(buf: seq<Byte>, buf': seq<Byte>, a: nat, t: nat, bytes: seq<Byte>)
    requires a < |buf| == |buf'| && buf[a] == buf'[a]
    ensures Put(buf, t, bytes)[a] == Put(buf', t, bytes)[a]
  {
  }

  /**
    Window non-interference.  For any interleaving of writers in different
    cells, the bytes of a cell's pixels end up as if its writer had run alone.
   */
  lemma {:induction false} NonInterference(s: Screen, g: Grid, buf: seq<Byte>, events: seq<Event>, c: Cell, px: nat,
                                           py: nat, k: nat)
    requires Valid(s) && g.xDiv > 0 && g.yDiv > 0 && AllProper(s, g, events) && InGrid(c, g)
    requires Holds(s, g, c, px, py) && k < s.bpp && |buf| >= s.stride * s.height * s.bpp
    ensures ByteOf(s, px, py, k) < |buf|
    ensures Draw(s, g, buf, events)[ByteOf(s, px, py, k)] == Draw(s, g, buf, OnlyOf(events, c))[ByteOf(s, px, py, k)]
  {
    hide Cut, Put, Holds, Proper;
    CellInScreen(s, g, c, px, py, k);
    if events != [] {
      var rest, e := events[..|events| - 1], events[|events| - 1];
      NonInterference(s, g, buf, rest, c, px, py, k);
      var before := Draw(s, g, buf, rest);
      if e.cell == c {
        var mine := OnlyOf(rest, c);
        assert (mine + [e])[..|mine|] == mine;
        SameByte(before, Draw(s, g, buf, mine), ByteOf(s, px, py, k), Target(s, g, e), e.bytes);
      } else {
        OtherCellUntouched(s, g, e, c, px, py, k, before);
      }
    }
  }

  lemma CellInScreen(s: Screen, g: Grid, c: Cell, px: nat, py: nat, k: nat)
    requires Valid(s) && g.xDiv > 0 && g.yDiv > 0 && InGrid(c, g) && Holds(s, g, c, px, py) && k < s.bpp
    ensures px < s.width && py < s.height && ByteOf(s, px, py, k) < s.stride * s.height * s.bpp
  {
    hide Cut;
    CellsPartition(s, g, px, py);
    ByteInside(s, px, py, k);
  }

  /** Bytes that belong to no screen pixel, such as the stride padding, are never written. */
  lemma {:induction false} PaddingKept(s: Screen, g: Grid, buf: seq<Byte>, events: seq<Event>, a: nat)
    requires Valid(s) && g.xDiv > 0 && g.yDiv > 0 && AllProper(s, g, events) && a < |buf|
    requires |buf| >= s.stride * s.height * s.bpp
    requires forall px: nat, py: nat, k: nat :: px < s.width && py < s.height && k < s.bpp ==> ByteOf(s, px, py, k) != a
    ensures Draw(s, g, buf, events)[a] == buf[a]
  {
    hide Cut, Proper;
    if events != [] {
      var rest, e := events[..|events| - 1], events[|events| - 1];
      PaddingKept(s, g, buf, rest, a);
      EventBytes(s, g, e);
      var t, px, py := Target(s, g, e), OriginX(s, g, e.cell) + e.x, OriginY(s, g, e.cell) + e.y;
      var k := if t <= a then a - t else 0;
      assert ByteOf(s, px, py, k) == t + k;
      assert !(t <= a < t + |e.bytes|);
      hide ByteOf, Target;
    }
  }

  // ------------------------------------------------------------- a window for each core

  /** `get_window_info_for_core`. */
  function CoreGrid(count: nat): (g: Grid) { Grid(4, (count + 4 - 1) / 4) }
  function CoreCell(id: nat): (c: Cell) { Cell(id % 4, id / 4) }

  /** Cores get different cells; core `id` gets a cell of the grid exactly if id < 4 * ceil(count / 4). */
  lemma CoreCells(id: nat, other: nat, count: nat)
    requires count > 0
    ensures CoreCell(id) == CoreCell(other) ==> id == other
    ensures InGrid(CoreCell(id), CoreGrid(count)) <==> id < 4 * ((count + 3) / 4)
    ensures id < count ==> InGrid(CoreCell(id), CoreGrid(count))
    ensures id == count ==> (InGrid(CoreCell(id), CoreGrid(count)) <==> count % 4 != 0)
  {
  }

  /** Four columns, filled from left to right and then downwards: where the window of core `id` starts. */
  lemma CoreOrigin(s: Screen, id: nat, count: nat)
    requires count > 0
    ensures OriginX(s, CoreGrid(count), CoreCell(id)) == (id % 4) * s.width / 4
    ensures OriginY(s, CoreGrid(count), CoreCell(id)) == (id / 4) * s.height / ((count + 3) / 4)
  {
  }

  /** Every byte of a pixel below the screen is past the end of the buffer. */
  lemma BelowScreenOutside(s: Screen, px: nat, py: nat, k: nat)
    requires py >= s.height
    ensures ByteOf(s, px, py, k) >= s.stride * s.height * s.bpp
  {
    MulMono(s.height, py, s.stride);
    MulMono(s.height * s.stride, py * s.stride + px, s.bpp);
  }

  /**
    The last core of a machine whose AP count is a multiple of four gets a cell
    that starts at the lower edge of the screen.  Its window is accepted exactly
    if the screen is wide enough for the row of cells that would come next, and
    then every byte of every pixel of it lies past the buffer.
   */
  lemma LastCoreBelowScreen(s: Screen, count: nat)
    requires count > 0 && count % 4 == 0
    ensures var g, c := CoreGrid(count), CoreCell(count);
      && OriginY(s, g, c) == s.height
      && (CellWindow(s, g, c).Window? <==> Cut(count / 4 + 1, s.height, count / 4) <= s.width)
      && (forall e: Event :: e.cell == c ==> Target(s, g, e) >= s.stride * s.height * s.bpp)
  {
    var g, c := CoreGrid(count), CoreCell(count);
    assert c == Cell(0, count / 4) && g == Grid(4, count / 4);
    CutEnds(s.height, g.yDiv);
    CellAccepted(s, g, c);
    hide Cut;
    forall e: Event | e.cell == c ensures Target(s, g, e) >= s.stride * s.height * s.bpp {
      WindowByte(s, OriginX(s, g, c), OriginY(s, g, c), e.x, e.y, 0);
      BelowScreenOutside(s, OriginX(s, g, c) + e.x, OriginY(s, g, c) + e.y, 0);
    }
  }

  /** Such a screen: 1280 by 720 with eight APs. */
  lemma WideScreenAccepts()
    ensures CellWindow(Screen(1280, 720, 1280, 4), CoreGrid(8), CoreCell(8)) == Window(720 * 1280 * 4, 320, 360)
  {
  }
}
