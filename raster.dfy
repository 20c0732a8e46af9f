/** The RGBA frame-buffer rasterizer: `clear_frame`, `set_pixel` and `draw_circle`.
    The frame is a flat byte buffer, row-major, 4 bytes per pixel, updated in place. */
module Raster {
  import opened RealOps
  import opened Geometry

  const SCREEN_WIDTH: nat := 400
  const SCREEN_HEIGHT: nat := SCREEN_WIDTH
  /** The number of bytes of a full frame. */
  const FRAME_LENGTH: nat := SCREEN_WIDTH * SCREEN_HEIGHT * 4

  type byte = b: int | 0 <= b < 256

  /** An RGBA colour (`[u8; 4]`). */
  type Color = c: seq<byte> | |c| == 4 witness [0, 0, 0, 0]

  /** The first byte of pixel `(row, col)`. */
  function PixelIndex(row: int, col: int): int
  {
    (row * SCREEN_WIDTH + col) * 4
  }

  /** The row of the pixel that byte `i` belongs to. */
  function PixelRow(i: int): int
  {
    i / 4 / SCREEN_WIDTH
  }

  /** The column of the pixel that byte `i` belongs to. */
  function PixelCol(i: int): int
  {
    i / 4 % SCREEN_WIDTH
  }

  /** The four bytes of an on-screen pixel lie inside the frame and belong to that pixel. */
  lemma PixelBytes(row: int, col: int, k: int)
    requires 0 <= row < SCREEN_HEIGHT && 0 <= col < SCREEN_WIDTH && 0 <= k < 4
    ensures 0 <= PixelIndex(row, col) && PixelIndex(row, col) + 4 <= FRAME_LENGTH
    ensures PixelRow(PixelIndex(row, col) + k) == row
    ensures PixelCol(PixelIndex(row, col) + k) == col
    ensures (PixelIndex(row, col) + k) % 4 == k
  {
    var p := row * SCREEN_WIDTH + col;
    assert (p * 4 + k) / 4 == p;
    assert p / SCREEN_WIDTH == row && p % SCREEN_WIDTH == col;
  }

  /** Every byte of a frame belongs to an on-screen pixel. */
  lemma BytePixel(i: int)
    requires 0 <= i < FRAME_LENGTH
    ensures 0 <= PixelRow(i) < SCREEN_HEIGHT && 0 <= PixelCol(i) < SCREEN_WIDTH
    ensures i == PixelIndex(PixelRow(i), PixelCol(i)) + i % 4
  {
    var p := i / 4;
    assert i == p * 4 + i % 4;
    assert p == p / SCREEN_WIDTH * SCREEN_WIDTH + p % SCREEN_WIDTH;
  }

  /** `frame[index..index + 4].copy_from_slice(color)`. */
  method CopyColor(frame: array<byte>, index: nat, color: Color)
    requires index + 4 <= frame.Length
    modifies frame
    ensures forall i :: 0 <= i < frame.Length ==>
      frame[i] == if index <= i < index + 4 then color[i - index] else old(frame[i])
  {
    frame[index] := color[0];
    frame[index + 1] := color[1];
    frame[index + 2] := color[2];
    frame[index + 3] := color[3];
  }

  /** Writes the on-screen pixel `(row, col)`: the `index = (row * SCREEN_WIDTH + col) * 4`
      computation followed by the copy, as `set_pixel` and `draw_circle` do it. */
  method PutPixel(frame: array<byte>, row: nat, col: nat, color: Color)
    requires frame.Length == FRAME_LENGTH
    requires row < SCREEN_HEIGHT && col < SCREEN_WIDTH
    modifies frame
    ensures forall i :: 0 <= i < frame.Length ==>
      frame[i] == if PixelRow(i) == row && PixelCol(i) == col then color[i % 4] else old(frame[i])
  {
    var index := PixelIndex(row, col);
    PixelBytes(row, col, 0);
    CopyColor(frame, index, color);
    forall i | 0 <= i < frame.Length
      ensures frame[i] == if PixelRow(i) == row && PixelCol(i) == col then color[i % 4] else old(frame[i])
    {
      BytePixel(i);
      if index <= i < index + 4 {
        PixelBytes(row, col, i - index);
      }
    }
  }

  /** `clear_frame`: every complete 4-byte chunk becomes `color`; a trailing partial chunk
      (never present in a full frame) is left as it was. */
  method ClearFrame(color: Color, frame: array<byte>)
    modifies frame
    ensures forall i :: 0 <= i < frame.Length ==>
      frame[i] == if i < frame.Length / 4 * 4 then color[i % 4] else old(frame[i])
  {
    var chunk := 0;
    while chunk < frame.Length / 4
      invariant 0 <= chunk <= frame.Length / 4
      invariant forall i :: 0 <= i < frame.Length ==>
        frame[i] == if i < chunk * 4 then color[i % 4] else old(frame[i])
    {
      CopyColor(frame, chunk * 4, color);
      chunk := chunk + 1;
    }
  }

  /** `set_pixel`: an off-screen `(x, y)` leaves the frame untouched; otherwise exactly the
      four bytes of pixel `(y, x)` become `color`. */
  method SetPixel(x: nat, y: nat, color: Color, frame: array<byte>)
    requires frame.Length == FRAME_LENGTH
    modifies frame
    ensures x >= SCREEN_WIDTH || y >= SCREEN_HEIGHT ==> frame[..] == old(frame[..])
    ensures forall i :: 0 <= i < frame.Length ==>
      frame[i] == if x < SCREEN_WIDTH && y < SCREEN_HEIGHT && PixelRow(i) == y && PixelCol(i) == x
                  then color[i % 4] else old(frame[i])
  {
    if x >= SCREEN_WIDTH || y >= SCREEN_HEIGHT {
      return;
    }
    PutPixel(frame, y, x, color);
  }

  // ---------------------------------------------------------------------------------------
  // draw_circle

  /** First row scanned: `(center.y - radius).round().max(0.0) as usize`. */
  function RowStart(c: Circle): nat
  {
    var r := Round(c.center.y - c.radius);
    ToUsize(if r < 0 then 0 else r)
  }

  /** One past the last row scanned: `(center.y + radius).ceil().min(SCREEN_HEIGHT) as usize`. */
  function RowEnd(c: Circle): nat
  {
    var r := Ceil(c.center.y + c.radius);
    ToUsize(if r < SCREEN_HEIGHT then r else SCREEN_HEIGHT)
  }

  /** First column scanned: `(center.x - radius).floor().max(0.0) as usize`. */
  function ColStart(c: Circle): nat
  {
    var r := Floor(c.center.x - c.radius);
    ToUsize(if r < 0 then 0 else r)
  }

  /** One past the last column scanned: `(center.x + radius).ceil().min(SCREEN_WIDTH) as usize`. */
  function ColEnd(c: Circle): nat
  {
    var r := Ceil(c.center.x + c.radius);
    ToUsize(if r < SCREEN_WIDTH then r else SCREEN_WIDTH)
  }

  /** The centre of pixel `(row, col)` lies strictly inside the circle (the test at the heart
      of the scan). */
  predicate PixelInside(c: Circle, row: int, col: int)
  {
    CoversPoint(c, col as real, row as real)
  }

  /** The scan phase of `draw_circle` writes pixel `(row, col)`. */
  predicate ScanHit(c: Circle, row: int, col: int)
  {
    RowStart(c) <= row < RowEnd(c) && ColStart(c) <= col < ColEnd(c) && PixelInside(c, row, col)
  }

  /** Pixels of row `row`, columns `colLo..colHi`, inside the circle. */
  function RowHits(c: Circle, row: int, colLo: int, colHi: int): nat
    decreases colHi - colLo
  {
    if colHi <= colLo then 0
    else RowHits(c, row, colLo, colHi - 1) + (if PixelInside(c, row, colHi - 1) then 1 else 0)
  }

  /** Pixels of rows `rowLo..rowHi`, within the scanned columns, inside the circle. */
  function BoxHits(c: Circle, rowLo: int, rowHi: int): nat
    decreases rowHi - rowLo
  {
    if rowHi <= rowLo then 0
    else BoxHits(c, rowLo, rowHi - 1) + RowHits(c, rowHi - 1, ColStart(c), ColEnd(c))
  }

  /** The value of `pixel_count` once the scan is over. */
  function ScanCount(c: Circle): nat
  {
    BoxHits(c, RowStart(c), RowEnd(c))
  }

  /** The fallback of `draw_circle` writes pixel `(row, col)`: the scan wrote nothing and
      `(row, col)` is the rounded centre, which lies on screen. */
  predicate FallbackHit(c: Circle, row: int, col: int)
  {
    var x := Round(c.center.x);
    var y := Round(c.center.y);
    ScanCount(c) == 0 && 0 <= x < SCREEN_WIDTH && 0 <= y < SCREEN_HEIGHT && row == y && col == x
  }

  /** `draw_circle` writes pixel `(row, col)`. */
  predicate Painted(c: Circle, row: int, col: int)
  {
    ScanHit(c, row, col) || FallbackHit(c, row, col)
  }

  /** `draw_circle`. Every write stays inside the frame; exactly the painted pixels change.
      The scan's `pixel_count` is returned so that its value can be stated. */
  method DrawCircle(circle: Circle, color: Color, frame: array<byte>) returns (pixelCount: nat)
    requires frame.Length == FRAME_LENGTH
    modifies frame
    ensures pixelCount == ScanCount(circle)
    ensures forall i :: 0 <= i < frame.Length ==>
      frame[i] == if Painted(circle, PixelRow(i), PixelCol(i)) then color[i % 4] else old(frame[i])
  {
    var rowStart, rowEnd := RowStart(circle), RowEnd(circle);
    var colStart, colEnd := ColStart(circle), ColEnd(circle);

    pixelCount := 0;
    var row := rowStart;
    while row < rowEnd
      invariant rowStart <= row && (row <= rowEnd || row == rowStart)
      invariant pixelCount == BoxHits(circle, rowStart, row)
      invariant forall i :: 0 <= i < frame.Length ==>
        frame[i] == if PixelRow(i) < row && ScanHit(circle, PixelRow(i), PixelCol(i))
                    then color[i % 4] else old(frame[i])
    {
      var col := colStart;
      while col < colEnd
        invariant colStart <= col && (col <= colEnd || col == colStart)
        invariant pixelCount == BoxHits(circle, rowStart, row) + RowHits(circle, row, colStart, col)
        invariant forall i :: 0 <= i < frame.Length ==>
          frame[i] == if (PixelRow(i) < row || (PixelRow(i) == row && PixelCol(i) < col)) &&
                          ScanHit(circle, PixelRow(i), PixelCol(i))
                      then color[i % 4] else old(frame[i])
      {
        if PixelInside(circle, row, col) {
          PutPixel(frame, row, col, color);
          pixelCount := pixelCount + 1;
        }
        col := col + 1;
      }
      row := row + 1;
    }

    if pixelCount == 0 {
      var x := Round(circle.center.x);
      var y := Round(circle.center.y);
      if x >= 0 && x < SCREEN_WIDTH && y >= 0 && y < SCREEN_HEIGHT {
        PutPixel(frame, y, x, color);
      }
    }
  }

  // ---------------------------------------------------------------------------------------
  // What draw_circle's footprint means

  /** For a circle built by `Circle::new` with a non-negative radius, the clipped bounding
      box loses nothing: the scan writes exactly the on-screen pixels inside the circle. */
  lemma ScanIsDisk(c: Circle, row: int, col: int)
    requires c.radius >= 0.0 && c.radiusSquared == Square(c.radius)
    ensures ScanHit(c, row, col) <==>
      0 <= row < SCREEN_HEIGHT && 0 <= col < SCREEN_WIDTH && PixelInside(c, row, col)
  {
    if 0 <= row < SCREEN_HEIGHT && 0 <= col < SCREEN_WIDTH && PixelInside(c, row, col) {
      var dx, dy := col as real - c.center.x, row as real - c.center.y;
      SquareBelow(dx, c.radius);
      SquareBelow(dy, c.radius);
      RoundAtMostNextInteger(c.center.y - c.radius);
    }
  }

  /** No hit in a row segment exactly when the sum over it is zero. */
  lemma {:induction false} RowHitsZero(c: Circle, row: int, colLo: int, colHi: int)
    ensures RowHits(c, row, colLo, colHi) == 0 <==>
      forall col :: colLo <= col < colHi ==> !PixelInside(c, row, col)
    decreases colHi - colLo
  {
    if colHi > colLo {
      RowHitsZero(c, row, colLo, colHi - 1);
    }
  }

  /** No hit in a band of rows exactly when the sum over it is zero. */
  lemma {:induction false} BoxHitsZero(c: Circle, rowLo: int, rowHi: int)
    ensures BoxHits(c, rowLo, rowHi) == 0 <==>
      forall row, col :: rowLo <= row < rowHi && ColStart(c) <= col < ColEnd(c) ==>
        !PixelInside(c, row, col)
    decreases rowHi - rowLo
  {
    if rowHi > rowLo {
      BoxHitsZero(c, rowLo, rowHi - 1);
      RowHitsZero(c, rowHi - 1, ColStart(c), ColEnd(c));
    }
  }

  /** The fallback runs exactly when the scan found no pixel (what it then writes is stated
      by `FallbackHit` and `ScanMissPaintsRoundedCentre`). */
  lemma FallbackOnlyWhenScanEmpty(c: Circle)
    ensures ScanCount(c) == 0 <==> forall row, col :: !ScanHit(c, row, col)
    ensures (exists row, col :: FallbackHit(c, row, col)) ==> forall row, col :: !ScanHit(c, row, col)
  {
    BoxHitsZero(c, RowStart(c), RowEnd(c));
    if ScanCount(c) != 0 {
      var row, col :| RowStart(c) <= row < RowEnd(c) && ColStart(c) <= col < ColEnd(c) && PixelInside(c, row, col);
      assert ScanHit(c, row, col);
    }
  }

  /** `draw_circle` always shows something of a circle whose rounded centre is on screen. */
  lemma CentreOnScreenIsVisible(c: Circle)
    requires 0 <= Round(c.center.x) < SCREEN_WIDTH && 0 <= Round(c.center.y) < SCREEN_HEIGHT
    ensures exists row, col :: Painted(c, row, col)
  {
    var x, y := Round(c.center.x), Round(c.center.y);
    if ScanCount(c) == 0 {
      assert FallbackHit(c, y, x);
      assert Painted(c, y, x);
    } else {
      FallbackOnlyWhenScanEmpty(c);
      var row, col :| ScanHit(c, row, col);
      assert Painted(c, row, col);
    }
  }

  /** A circle that contains no on-screen pixel centre is drawn by the fallback alone: exactly
      the pixel of its rounded centre is painted, and only when that pixel is on screen. */
  lemma ScanMissPaintsRoundedCentre(c: Circle, row: int, col: int)
    requires forall r, k :: 0 <= r < SCREEN_HEIGHT && 0 <= k < SCREEN_WIDTH ==> !PixelInside(c, r, k)
    ensures ScanCount(c) == 0
    ensures Painted(c, row, col) <==>
      row == Round(c.center.y) && col == Round(c.center.x) &&
      0 <= row < SCREEN_HEIGHT && 0 <= col < SCREEN_WIDTH
  {
    FallbackOnlyWhenScanEmpty(c);
  }

  /** The disk of radius 0.3 at (10.4, 20.7) covers no pixel centre, so exactly one pixel,
      its rounded centre (row 21, column 10), is painted. */
  lemma SubPixelDiskPaintsOnePixel(row: int, col: int)
    ensures var c := NewCircle(Vec2(10.4, 20.7), 0.3);
      ScanCount(c) == 0 && (Painted(c, row, col) <==> row == 21 && col == 10)
  {
    var c := NewCircle(Vec2(10.4, 20.7), 0.3);
    assert RowStart(c) == 20 && RowEnd(c) == 21 && ColStart(c) == 10 && ColEnd(c) == 11;
    assert !PixelInside(c, 20, 10);
    assert RowHits(c, 20, 10, 11) == 0;
    assert BoxHits(c, 20, 21) == 0;
  }
}
