/** Rectangles, pixmaps and tiled bitmaps on a display that is written through a window
    whose pixels are filled row by row.

    The software clipping of CONFIG_GFX_USE_CLIPPING is on. */
module Pixmaps {
  import opened Bits

  type Color = nat

  /** A rectangle of pixels, all limits included. */
  datatype Rect = Rect(left: int16, top: int16, right: int16, bottom: int16)
  {
    predicate Contains(x: int, y: int)
    {
      left <= x <= right && top <= y <= bottom
    }

    function Width(): int { right - left + 1 }

    predicate IsProper() { left <= right && top <= bottom }
  }

  /** The position of a pixel in a window that is filled row by row. */
  function Index(window: Rect, x: int, y: int): int
  {
    (y - window.top) * window.Width() + (x - window.left)
  }

  lemma RowStart(window: Rect, x: int, y: int)
    requires window.Contains(x, y)
    ensures Index(window, x, y) >= 0
    ensures Index(window, x, y) < window.Width() <==> y == window.top
    ensures Index(window, x, y) < (window.bottom - window.top + 1) * window.Width()
  {
    if y > window.top {
      MulAtLeast(y - window.top, window.Width());
    }
    if y < window.bottom {
      MulAtLeast(window.bottom - y, window.Width());
    }
    assert (window.bottom - window.top + 1) * window.Width()
        == (y - window.top) * window.Width() + (window.bottom - y) * window.Width() + window.Width();
  }

  class Screen {
    var image: (int, int) -> Color
    var window: Rect
    var clip: Rect
    ghost var garbled: bool     // pixels were sent to a window with limits the wrong way round

    constructor (image: (int, int) -> Color, clip: Rect)
      ensures this.image == image && this.clip == clip && !garbled
    {
      this.image, this.clip, window, garbled := image, clip, Rect(0, 0, 0, 0), false;
    }

    // ---- The display ----

    method SetTopLeftLimit(x: int16, y: int16)
      modifies this`window
      ensures window == old(window).(left := x, top := y)
    {
      window := window.(left := x, top := y);
    }

    method SetBottomRightLimit(x: int16, y: int16)
      modifies this`window
      ensures window == old(window).(right := x, bottom := y)
    {
      window := window.(right := x, bottom := y);
    }

    /** Sends `count` pixels to the window, which has room for them. */
    method CopyPixelsToScreen(pixels: seq<Color>, start: nat, count: nat)
      requires start + count <= |pixels|
      requires count <= (window.bottom - window.top + 1) * window.Width()
      modifies this`image
      ensures forall px, py ::
        (image(px, py) ==
         if window.Contains(px, py) && 0 <= Index(window, px, py) < count
         then pixels[start + Index(window, px, py)] else old(image)(px, py))
    {
      var before, w := image, window;
      image := (px, py) =>
        if w.Contains(px, py) && 0 <= Index(w, px, py) < count && start + Index(w, px, py) < |pixels|
        then pixels[start + Index(w, px, py)] else before(px, py);
    }

    method DuplicatePixel(color: Color, count: nat)
      requires count <= (window.bottom - window.top + 1) * window.Width()
      modifies this`image
      ensures forall px, py ::
        (image(px, py) ==
         if window.Contains(px, py) && 0 <= Index(window, px, py) < count then color else old(image)(px, py))
    {
      var before, w := image, window;
      image := (px, py) =>
        if w.Contains(px, py) && 0 <= Index(w, px, py) < count then color else before(px, py);
    }

    /** A window that is filled completely. What the display shows afterwards is not defined if
        the limits of the window are the wrong way round. */
    method FillWindow(color: Color, count: int)
      requires window.IsProper() ==> count == (window.bottom - window.top + 1) * window.Width()
      modifies this`image, this`garbled
      ensures garbled == (old(garbled) || !window.IsProper())
      ensures window.IsProper() ==> forall px, py ::
        (image(px, py) == if window.Contains(px, py) then color else old(image)(px, py))
    {
      if window.IsProper() {
        WholeWindow(window);
        DuplicatePixel(color, count);
      } else {
        image := *;
        garbled := true;
      }
    }

    /** A window that is copied to completely, from the pixel in column `mapX` of row `mapY`
        of a pixmap as wide as the window. */
    method CopyToWindow(pixmap: seq<Color>, start: nat, count: nat, ghost mapX: int, ghost mapY: int)
      requires start + count <= |pixmap|
      requires window.IsProper() ==>
        && start == mapX + mapY * window.Width()
        && count == (window.bottom - window.top + 1) * window.Width()
      modifies this`image, this`garbled
      ensures garbled == (old(garbled) || !window.IsProper())
      ensures window.IsProper() ==> forall px, py ::
        (image(px, py) ==
         if window.Contains(px, py)
         then PixelAt(pixmap, window.Width(), mapX + (px - window.left), mapY + (py - window.top))
         else old(image)(px, py))
    {
      if window.IsProper() {
        WindowPixels(pixmap, start, window, mapX, mapY, count);
        CopyPixelsToScreen(pixmap, start, count);
      } else {
        image := *;
        garbled := true;
      }
    }

    /** A window of which only the top row is copied to, from the pixel in column `mapX` of
        row `row` of a pixmap of width `mapWidth`. */
    method CopyToRow(pixmap: seq<Color>, start: nat, count: nat, ghost mapWidth: int, ghost mapX: int, ghost row: int)
      requires start + count <= |pixmap| && start == mapX + row * mapWidth
      requires window.IsProper() ==> count == window.Width()
      modifies this`image, this`garbled
      ensures garbled == (old(garbled) || !window.IsProper())
      ensures window.IsProper() ==> forall px, py ::
        (image(px, py) ==
         if window.left <= px <= window.right && py == window.top
         then PixelAt(pixmap, mapWidth, mapX + (px - window.left), row)
         else old(image)(px, py))
    {
      if window.IsProper() {
        FirstRow(window);
        MulAtLeast(window.bottom - window.top + 1, window.Width());
        CopyPixelsToScreen(pixmap, start, count);
      } else {
        image := *;
        garbled := true;
      }
    }

    // ---- Drawing ----

    /** Nothing of a rectangle of positive size lies in the clipping region. */
    ghost predicate OffScreen(x: int, y: int, width: int, height: int)
      reads this`clip
    {
      && width > 0 && height > 0
      && (x > clip.right || y > clip.bottom || x + width <= clip.left || y + height <= clip.top)
    }

    /** Fills exactly the part of the rectangle that lies in the clipping region. A negative
        width or height extends the rectangle to the left or upwards. A rectangle that reaches
        beyond 16 bits is either not drawn at all or sent to an improper window. */
    method DrawFilledRect(x0: int16, y0: int16, width0: int16, height0: int16, color: Color)
      requires clip.IsProper()
      modifies this`image, this`window, this`garbled
      ensures if width0 == 0 || height0 == 0 || OffScreen(x0, y0, width0, height0) || SpansFit(x0, y0, width0, height0)
              then
                && garbled == old(garbled)
                && forall px, py ::
                     (image(px, py) ==
                      if clip.Contains(px, py) && InSpan(px, x0, width0) && InSpan(py, y0, height0)
                      then color else old(image)(px, py))
              else garbled || image == old(image)
    {
      hide InSpan;
      hide Wrap16;
      hide SpanFits;
      var x: int16, y: int16, width: int16, height: int16 := x0, y0, width0, height0;
      if width == 0 || height == 0 {
        EmptySpan(x0);
        EmptySpan(y0);
        return;
      }
      if width < 0 {
        width := Wrap16(0 - width);
        x := Wrap16(x - (width - 1));
      }
      if height < 0 {
        height := Wrap16(0 - height);
        y := Wrap16(y - (height - 1));
      }
      SpanTurned(x0, width0);
      SpanTurned(y0, height0);
      FillClipped(x, y, width, height, color);
    }

    /** The clipping and filling part of `DrawFilledRect`. */
    method FillClipped(x0: int16, y0: int16, width0: int16, height0: int16, color: Color)
      requires clip.IsProper() && (width0 > 0 || width0 == -0x8000) && (height0 > 0 || height0 == -0x8000)
      modifies this`image, this`window, this`garbled
      ensures if width0 > 0 && height0 > 0
                 && (OffScreen(x0, y0, width0, height0) || SpansFit(x0, y0, width0, height0))
              then
                && garbled == old(garbled)
                && forall px, py ::
                     (image(px, py) ==
                      if clip.Contains(px, py) && InSpan(px, x0, width0) && InSpan(py, y0, height0)
                      then color else old(image)(px, py))
              else garbled || image == old(image)
      ensures OffScreen(x0, y0, width0, height0) ==> image == old(image)
    {
      var x: int16, y: int16, width: int16, height: int16 := x0, y0, width0, height0;
      if x > clip.right || y > clip.bottom || x + width <= clip.left || y + height <= clip.top {
        return;
      }
      if x < clip.left {
        width := width - (clip.left - x);
        x := clip.left;
      }
      if y < clip.top {
        height := height - (clip.top - y);
        y := clip.top;
      }
      FarLimit(x, width);
      FarLimit(y, height);
      var x2: int16 := Wrap16(x + width - 1);
      var y2: int16 := Wrap16(y + height - 1);
      if x2 > clip.right {
        x2 := clip.right;
        width := x2 - x + 1;
      }
      if y2 > clip.bottom {
        y2 := clip.bottom;
        height := y2 - y + 1;
      }
      SetTopLeftLimit(x, y);
      SetBottomRightLimit(x2, y2);
      FillWindow(color, height * width);
    }

    /** Copies a rectangle of a pixmap to exactly the part of the screen rectangle that lies
        in the clipping region: every pixel there gets the pixmap's pixel at the same
        distance from the rectangle's corner. A rectangle that reaches beyond 16 bits is sent to
        an improper window. */
    method PutPixmap(pixmap: seq<Color>, mapWidth: int16, mapX0: int16, mapY0: int16,
                     x0: int16, y0: int16, width0: int16, height0: int16)
      requires clip.IsProper()
      requires width0 != 0 && height0 != 0 ==>
        && mapX0 + width0 <= mapWidth && mapX0 >= 0 && mapY0 >= 0 && width0 > 0 && height0 > 0
        && (mapY0 + height0) * mapWidth <= |pixmap| && IsInt16(mapY0 + height0 - 1)
      modifies this`image, this`window, this`garbled
      ensures if width0 == 0 || height0 == 0 || OffScreen(x0, y0, width0, height0) || SpansFit(x0, y0, width0, height0)
              then
                && garbled == old(garbled)
                && forall px, py ::
                     (image(px, py) ==
                      if width0 != 0 && height0 != 0 && clip.Contains(px, py)
                         && x0 <= px < x0 + width0 && y0 <= py < y0 + height0
                      then PixelAt(pixmap, mapWidth, mapX0 + (px - x0), mapY0 + (py - y0)) else old(image)(px, py))
              else garbled
    {
      hide PixelAt;
      var mapX: int16, mapY: int16 := mapX0, mapY0;
      var x: int16, y: int16, width: int16, height: int16 := x0, y0, width0, height0;
      if width == 0 || height == 0 {
        return;
      }
      if x > clip.right || y > clip.bottom || x + width <= clip.left || y + height <= clip.top {
        return;
      }
      if x < clip.left {
        width := width - (clip.left - x);
        mapX := mapX + (clip.left - x);
        x := clip.left;
      }
      if y < clip.top {
        height := height - (clip.top - y);
        mapY := mapY + (clip.top - y);
        y := clip.top;
      }
      FarLimit(x, width);
      FarLimit(y, height);
      var x2: int16 := Wrap16(x + width - 1);
      var y2: int16 := Wrap16(y + height - 1);
      if x2 > clip.right {
        x2 := clip.right;
        width := x2 - x + 1;
      }
      if y2 > clip.bottom {
        y2 := clip.bottom;
        height := y2 - y + 1;
      }
      RowsFit(mapY + height, mapY0 + height0, mapWidth);
      CopyRect(pixmap, mapWidth, mapX, mapY, x, y, x2, y2, width, height);
    }

    /** Tiles a RAM bitmap from the tile origin on. Every pixel of the output area in the
        clipping region gets the bitmap's pixel at its distance from the origin modulo the
        bitmap's size; so does what the outermost tiles cover beyond the area, and nothing
        else changes. */
    method DrawBitmapTiled(bitmap: seq<Color>, mapWidth: int16, mapHeight: int16,
                           x1: int16, y1: int16, x2: int16, y2: int16, originX: int16, originY: int16)
      requires clip.IsProper()
      requires mapWidth > 0 && mapHeight > 0 && |bitmap| == mapHeight * mapWidth
      requires 0 <= x1 < x2 && 0 <= y1 < y2 && originX <= x1 && originY <= y1
      requires IsInt16(TileEnd(originX, x2, mapWidth)) && IsInt16(TileEnd(originY, y2, mapHeight))
      modifies this`image, this`window, this`garbled
      ensures garbled == old(garbled)
      ensures forall px, py ::
        (image(px, py) ==
         if clip.Contains(px, py) && TileStart(originX, x1, mapWidth) <= px < TileEnd(originX, x2, mapWidth)
            && TileStart(originY, y1, mapHeight) <= py < TileEnd(originY, y2, mapHeight)
         then PixelAt(bitmap, mapWidth, Phase(px, originX, mapWidth), Phase(py, originY, mapHeight))
         else old(image)(px, py))
    {
      hide PixelAt;
      var startX: int16 := originX;
      while startX <= x1 - mapWidth
        invariant image == old(image) && garbled == old(garbled) && startX <= x1 && OnGrid(startX, originX, mapWidth)
      {
        NextTile(startX, originX, mapWidth);
        startX := startX + mapWidth;
      }
      FirstTile(startX, originX, x1, mapWidth);
      var startY: int16 := originY;
      while startY <= y1 - mapHeight
        invariant image == old(image) && garbled == old(garbled) && startY <= y1 && OnGrid(startY, originY, mapHeight)
      {
        NextTile(startY, originY, mapHeight);
        startY := startY + mapHeight;
      }
      FirstTile(startY, originY, y1, mapHeight);

      var indexY: int16 := startY;
      while indexY <= y2
        invariant garbled == old(garbled)
        invariant startY <= indexY < y2 + 1 + mapHeight && OnGrid(indexY, originY, mapHeight)
        invariant forall px, py ::
          (image(px, py) ==
           if clip.Contains(px, py) && startX <= px < TileEnd(originX, x2, mapWidth) && startY <= py < indexY
           then PixelAt(bitmap, mapWidth, Phase(px, originX, mapWidth), Phase(py, originY, mapHeight))
           else old(image)(px, py))
      {
        TileBefore(indexY, originY, y2, mapHeight);
        DrawTileRow(bitmap, mapWidth, mapHeight, startX, indexY, x2, originX, originY);
        NextTile(indexY, originY, mapHeight);
        indexY := indexY + mapHeight;
      }
      LastTile(indexY, originY, y2, mapHeight);
    }

    /** The inner loop of `DrawBitmapTiled`. */
    method DrawTileRow(bitmap: seq<Color>, mapWidth: int16, mapHeight: int16, startX: int16, y: int16, x2: int16,
                       ghost originX: int, ghost originY: int)
      requires clip.IsProper()
      requires mapWidth > 0 && mapHeight > 0 && |bitmap| == mapHeight * mapWidth
      requires OnGrid(startX, originX, mapWidth) && OnGrid(y, originY, mapHeight) && startX <= x2
      requires IsInt16(TileEnd(originX, x2, mapWidth)) && IsInt16(y + mapHeight)
      modifies this`image, this`window, this`garbled
      ensures garbled == old(garbled)
      ensures forall px, py ::
        (image(px, py) ==
         if clip.Contains(px, py) && startX <= px < TileEnd(originX, x2, mapWidth) && y <= py < y + mapHeight
         then PixelAt(bitmap, mapWidth, Phase(px, originX, mapWidth), Phase(py, originY, mapHeight))
         else old(image)(px, py))
    {
      hide PixelAt;
      hide Phase;
      var indexX: int16 := startX;
      while indexX <= x2
        invariant garbled == old(garbled)
        invariant startX <= indexX < x2 + 1 + mapWidth && OnGrid(indexX, originX, mapWidth)
        invariant forall px, py ::
          (image(px, py) ==
           if clip.Contains(px, py) && startX <= px < indexX && y <= py < y + mapHeight
           then PixelAt(bitmap, mapWidth, Phase(px, originX, mapWidth), Phase(py, originY, mapHeight))
           else old(image)(px, py))
      {
        TileBefore(indexX, originX, x2, mapWidth);
        WithinTile(indexX, originX, mapWidth);
        WithinTile(y, originY, mapHeight);
        PutPixmap(bitmap, mapWidth, 0, 0, indexX, y, mapWidth, mapHeight);
        NextTile(indexX, originX, mapWidth);
        indexX := indexX + mapWidth;
      }
      LastTile(indexX, originX, x2, mapWidth);
    }

    /** The copying part of `PutPixmap`, for a rectangle that needs no more clipping. */
    method CopyRect(pixmap: seq<Color>, mapWidth: int16, mapX: int16, mapY: int16,
                    x0: int16, y0: int16, x2: int16, y2: int16, width: int16, height: int16)
      requires width > 0 && (x0 <= x2 ==> width == x2 - x0 + 1)
      requires height > 0 && (y0 <= y2 ==> height == y2 - y0 + 1)
      requires 0 <= mapX && mapX + width <= mapWidth && 0 <= mapY && (mapY + height) * mapWidth <= |pixmap|
      modifies this`image, this`window, this`garbled
      ensures if x0 <= x2 && y0 <= y2
              then
                && garbled == old(garbled)
                && forall px, py ::
                     (image(px, py) ==
                      if x0 <= px <= x2 && y0 <= py <= y2
                      then PixelAt(pixmap, mapWidth, mapX + (px - x0), mapY + (py - y0)) else old(image)(px, py))
              else garbled
    {
      hide PixelAt;
      var y: int16 := y0;
      var offset: int := mapX;
      if mapY > 0 {
        offset := offset + mapY * mapWidth;
      }
      ghost var before := image;
      SetBottomRightLimit(x2, y2);
      if mapWidth == width && mapX == 0 {
        SetTopLeftLimit(x0, y);
        LastRow(mapY, height, height, mapWidth);
        CopyToWindow(pixmap, offset, height * width, mapX, mapY);
      } else {
        var linesLeft: int16 := height;
        while linesLeft > 0
          invariant 0 <= linesLeft <= height && (linesLeft == height ==> y == y0)
          invariant y0 <= y2 && linesLeft > 0 ==> y == y0 + (height - linesLeft)
          invariant offset == mapX + (mapY + (height - linesLeft)) * mapWidth
          invariant window.right == x2 && window.bottom == y2
          invariant if x0 <= x2 && y0 <= y2 then garbled == old(garbled) else garbled || linesLeft == height
          invariant x0 <= x2 && y0 <= y2 ==> forall px, py ::
            (image(px, py) ==
             if x0 <= px <= x2 && y0 <= py < y0 + (height - linesLeft)
             then PixelAt(pixmap, mapWidth, mapX + (px - x0), mapY + (py - y0)) else before(px, py))
        {
          SetTopLeftLimit(x0, y);
          y := Wrap16(y + 1);
          ghost var row := height - linesLeft;
          assert y0 <= y2 && linesLeft > 1 ==> IsInt16(y0 + row + 1);
          LastRow(mapY, row + 1, height, mapWidth);
          CopyToRow(pixmap, offset, width, mapWidth, mapX, mapY + row);
          offset := offset + mapWidth;
          linesLeft := linesLeft - 1;
        }
      }
    }
  }

  lemma RowsFit(rows: int, more: int, mapWidth: int)
    requires rows <= more && mapWidth >= 0
    ensures rows * mapWidth <= more * mapWidth
  {
  }

  lemma LastRow(mapY: nat, rows: nat, height: nat, mapWidth: nat)
    requires 0 < rows <= height
    ensures (mapY + (rows - 1)) * mapWidth + mapWidth == (mapY + rows) * mapWidth <= (mapY + height) * mapWidth
    ensures mapY * mapWidth + height * mapWidth == (mapY + height) * mapWidth
    ensures mapY * mapWidth >= 0 && (mapY + (rows - 1)) * mapWidth >= 0
  {
    assert (mapY + height) * mapWidth == (mapY + rows) * mapWidth + (height - rows) * mapWidth;
  }

  /** The pixels of a window, counted row by row, are those of the pixmap's rows. */
  lemma WindowPixels(pixmap: seq<Color>, start: nat, window: Rect, mapX: int, mapY: int, count: nat)
    requires start + count <= |pixmap| && start == mapX + mapY * window.Width()
    requires count == (window.bottom - window.top + 1) * window.Width()
    ensures forall x, y | window.Contains(x, y) ::
      && 0 <= Index(window, x, y) < count
      && pixmap[start + Index(window, x, y)]
         == PixelAt(pixmap, window.Width(), mapX + (x - window.left), mapY + (y - window.top))
  {
    forall x, y | window.Contains(x, y)
      ensures 0 <= Index(window, x, y) < count
      ensures pixmap[start + Index(window, x, y)]
           == PixelAt(pixmap, window.Width(), mapX + (x - window.left), mapY + (y - window.top))
    {
      RowStart(window, x, y);
      assert (mapY + (y - window.top)) * window.Width() == mapY * window.Width() + (y - window.top) * window.Width();
    }
  }

  /** How far `p` lies from the start of the tile that covers it. */
  function Phase(p: int, origin: int, size: int): int
    requires size > 0
  {
    (p - origin) % size
  }

  /** Whether a tile starts at `p`. */
  predicate OnGrid(p: int, origin: int, size: int)
    requires size > 0
  {
    Phase(p, origin, size) == 0
  }

  /** The start of the tile that covers `p`. */
  function TileStart(origin: int, p: int, size: int): int
    requires size > 0
  {
    p - Phase(p, origin, size)
  }

  /** The end of the tile that covers `p`. */
  function TileEnd(origin: int, p: int, size: int): int
    requires size > 0
  {
    TileStart(origin, p, size) + size
  }

  lemma NextTile(p: int, origin: int, size: int)
    requires size > 0 && OnGrid(p, origin, size)
    ensures OnGrid(p + size, origin, size)
  {
    ModAddMultiple(p - origin, 1, size);
  }

  lemma TileBefore(start: int, origin: int, p: int, size: int)
    requires size > 0 && OnGrid(start, origin, size) && start <= p
    ensures start + size <= TileEnd(origin, p, size)
  {
    RemainderOf(start - origin, size);
    RemainderOf(p - origin, size);
    var n, m := (start - origin) / size, (p - origin) / size;
    if n > m {
      MulAtLeast(n - m, size);
      MulDistributes(n, m, size);
    } else {
      MulDistributes(m, n, size);
      MulNonNegative(m - n, size);
    }
  }

  lemma WithinTile(start: int, origin: int, size: int)
    requires size > 0 && OnGrid(start, origin, size)
    ensures forall p | start <= p < start + size :: Phase(p, origin, size) == p - start
  {
    forall p | start <= p < start + size
      ensures Phase(p, origin, size) == p - start
    {
      RemainderOf(start - origin, size);
      DivModUnique(p - origin, size, (start - origin) / size, p - start);
    }
  }

  lemma FirstTile(start: int, origin: int, p: int, size: int)
    requires size > 0 && OnGrid(start, origin, size) && start <= p < start + size
    ensures start == TileStart(origin, p, size)
  {
    hide Phase;
    WithinTile(start, origin, size);
  }

  /** The first tile start beyond `p` is the end of the tile that covers `p`. */
  lemma LastTile(end: int, origin: int, p: int, size: int)
    requires size > 0 && OnGrid(end, origin, size) && p < end < p + 1 + size
    ensures end == TileEnd(origin, p, size)
  {
    ModAddMultiple(end - origin, -1, size);
    FirstTile(end - size, origin, p, size);
  }

  /** The step to the last tile's end leaves the loop exactly if the end fits 16 bits: otherwise
      the coordinate becomes negative, and the loop goes on with tiles off the screen. */
  lemma TilesEndIff(origin: int, p: int16, size: int16)
    requires size > 0 && p >= 0
    ensures Wrap16(TileEnd(origin, p, size)) > p <==> IsInt16(TileEnd(origin, p, size))
  {
    RemainderOf(p - origin, size);
    WrapFits(TileEnd(origin, p, size));
  }

  /** The coordinate after `n` steps of the loop, as 16 bits hold it. */
  function TileIndex(start: int16, size: int16, n: nat): int16
  {
    if n == 0 then start else Wrap16(TileIndex(start, size, n - 1) + size)
  }

  /** It may go on for ever: from 0 on, tiles 16384 wide never get past 20000. */
  lemma {:induction false} EndlessTiles(n: nat)
    ensures !IsInt16(TileEnd(0, 20000, 0x4000)) && TileIndex(0, 0x4000, n) <= 20000
    ensures var i := TileIndex(0, 0x4000, n);
            i == 0 || i == 0x4000 || i == -0x8000 || i == -0x4000
    ensures TileIndex(0, 0x4000, n + 1) == Wrap16(TileIndex(0, 0x4000, n) + 0x4000) && TileIndex(0, 0x4000, 0) == 0
  {
    hide Wrap16;
    DivModUnique(20000, 0x4000, 1, 3616);
    if n > 0 {
      EndlessTiles(n - 1);
      WrapFits(TileIndex(0, 0x4000, n - 1) + 0x4000);
    }
  }

  /** The tiles that are drawn cover the whole output area. */
  lemma TilesCoverArea(p: int, origin: int, from: int, to: int, size: int)
    requires size > 0 && from <= p <= to
    ensures TileStart(origin, from, size) <= p < TileEnd(origin, to, size)
  {
    RemainderOf(from - origin, size);
    RemainderOf(to - origin, size);
  }

  /** The pixel in column `x` of row `y` of a pixmap. */
  function PixelAt(pixmap: seq<Color>, mapWidth: int, x: int, y: int): Color
  {
    var i := y * mapWidth + x;
    if 0 <= i < |pixmap| then pixmap[i] else 0
  }

  lemma WholeWindow(window: Rect)
    ensures forall x, y | window.Contains(x, y) ::
      0 <= Index(window, x, y) < (window.bottom - window.top + 1) * window.Width()
  {
    forall x, y | window.Contains(x, y)
      ensures 0 <= Index(window, x, y) < (window.bottom - window.top + 1) * window.Width()
    {
      RowStart(window, x, y);
    }
  }

  lemma FirstRow(window: Rect)
    ensures forall x, y | window.Contains(x, y) ::
      0 <= Index(window, x, y) && (Index(window, x, y) < window.Width() <==> y == window.top)
  {
    forall x, y | window.Contains(x, y)
      ensures 0 <= Index(window, x, y) && (Index(window, x, y) < window.Width() <==> y == window.top)
    {
      RowStart(window, x, y);
    }
  }

  /** The `length` coordinates from `start` on, or up to it if the length is negative. */
  predicate InSpan(p: int, start: int, length: int)
  {
    if length >= 0 then start <= p < start + length else start + length < p <= start
  }

  /** Whether 16 bits hold the length as a positive number and the end the span extends to. */
  predicate SpanFits(start: int, length: int)
  {
    IsInt16(-length) && IsInt16(if length >= 0 then start + length - 1 else start + length + 1)
  }

  predicate SpansFit(x: int, y: int, width: int, height: int)
  {
    SpanFits(x, width) && SpanFits(y, height)
  }

  lemma EmptySpan(start: int)
    ensures forall p :: !InSpan(p, start, 0)
  {
  }

  /** A span of negative length is turned around. One that does not fit does not fit after that
      either, or its length is still negative. */
  lemma SpanTurned(start: int16, length: int16)
    requires length != 0
    ensures
      var turned: int := if length < 0 then Wrap16(0 - length) else length;
      var from := if length < 0 then Wrap16(start - (turned - 1)) else start;
      && (turned > 0 || turned == -0x8000)
      && (SpanFits(start, length) <==> turned > 0 && SpanFits(from, turned))
      && (SpanFits(start, length) ==> forall p :: InSpan(p, start, length) <==> InSpan(p, from, turned))
  {
    WrapFits(0 - length);
    WrapFits(start - (Wrap16(0 - length) - 1));
  }

  /** The far limit as it is stored: it wraps to a value below the near one. */
  lemma FarLimit(near: int16, length: int16)
    requires length > 0 || (length == -0x8000 && near > 0)
    ensures if length > 0 && near + length - 1 < 0x8000 then Wrap16(near + length - 1) == near + length - 1
            else Wrap16(near + length - 1) < near
  {
    WrapFits(near + length - 1);
  }

  /** The limits stored for a span are those of a span of that size exactly if it fits: otherwise
      the far limit wraps to the other side of the start, or the size stays negative. */
  lemma SpanFitsIff(start: int, length: int)
    requires IsInt16(start) && IsInt16(length) && length != 0
    ensures SpanFits(start, length) <==>
      if length > 0 then start <= Wrap16(start + length - 1)
      else Wrap16(-length) > 0 && Wrap16(start - (Wrap16(-length) - 1)) <= start
  {
  }
}
