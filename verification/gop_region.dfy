/**
 The set of framebuffer slots a partial swap touches: the slots `Index(x, y)`
 of the pixels in the half-open rectangle `[sx, ex) x [sy, ey)`.
 */
module GopRegion {
  import opened GopTypes
  import opened GopGeometry
  import opened GopArith

  predicate InRect(x: u32, y: u32, sx: int, sy: int, ex: int, ey: int)
  {
    sx <= x as int < ex && sy <= y as int < ey
  }

  /** Slot `i` is the index of some pixel of the rectangle. */
  ghost predicate Covered(m: Mode, i: int, sx: int, sy: int, ex: int, ey: int)
  {
    exists x: u32, y: u32 :: InRect(x, y, sx, sy, ex, ey) && Index(m, x, y) as int == i
  }

  /** Slot `i` is the index of a pixel of row `y` with column in `[sx, ex)`. */
  ghost predicate CoveredInRow(m: Mode, i: int, sx: int, ex: int, y: int)
  {
    Covered(m, i, sx, y, ex, y + 1)
  }

  /** An empty rectangle covers no slot. */
  lemma EmptyCoversNothing(m: Mode, sx: int, sy: int, ex: int, ey: int)
    requires sx >= ex || sy >= ey
    ensures forall i :: !Covered(m, i, sx, sy, ex, ey)
  {
  }

  /** Rows `[sy, y + 1)` cover exactly what rows `[sy, y)` and row `y` cover. */
  lemma CoveredAddRow(m: Mode, sx: int, sy: int, ex: int, y: int)
    requires sy <= y
    ensures forall i :: Covered(m, i, sx, sy, ex, y + 1)
                    <==> Covered(m, i, sx, sy, ex, y) || CoveredInRow(m, i, sx, ex, y)
  {
    forall i | Covered(m, i, sx, sy, ex, y + 1)
      ensures Covered(m, i, sx, sy, ex, y) || CoveredInRow(m, i, sx, ex, y)
    {
      var x: u32, y': u32 :| InRect(x, y', sx, sy, ex, y + 1) && Index(m, x, y') as int == i;
      if y' as int < y {
        assert InRect(x, y', sx, sy, ex, y);
      } else {
        assert InRect(x, y', sx, y, ex, y + 1);
      }
    }
    forall i | Covered(m, i, sx, sy, ex, y)
      ensures Covered(m, i, sx, sy, ex, y + 1)
    {
      var x: u32, y': u32 :| InRect(x, y', sx, sy, ex, y) && Index(m, x, y') as int == i;
      assert InRect(x, y', sx, sy, ex, y + 1);
    }
    forall i | CoveredInRow(m, i, sx, ex, y)
      ensures Covered(m, i, sx, sy, ex, y + 1)
    {
      var x: u32, y': u32 :| InRect(x, y', sx, y, ex, y + 1) && Index(m, x, y') as int == i;
      assert InRect(x, y', sx, sy, ex, y + 1);
    }
  }

  /** Columns `[sx, x + 1)` of row `y` cover what columns `[sx, x)` cover,
      plus the slot of pixel (x, y). */
  lemma CoveredAddColumn(m: Mode, sx: int, x: int, y: int)
    requires sx <= x && 0 <= x < U32_MODULUS && 0 <= y < U32_MODULUS
    ensures forall i :: CoveredInRow(m, i, sx, x + 1, y)
                    <==> CoveredInRow(m, i, sx, x, y) || i == Index(m, x as u32, y as u32) as int
  {
    var px, py := x as u32, y as u32;
    assert InRect(px, py, sx, y, x + 1, y + 1);
    forall i | CoveredInRow(m, i, sx, x + 1, y)
      ensures CoveredInRow(m, i, sx, x, y) || i == Index(m, px, py) as int
    {
      var x': u32, y': u32 :| InRect(x', y', sx, y, x + 1, y + 1) && Index(m, x', y') as int == i;
      if x' < px {
        assert InRect(x', y', sx, y, x, y + 1);
      }
    }
    forall i | CoveredInRow(m, i, sx, x, y)
      ensures CoveredInRow(m, i, sx, x + 1, y)
    {
      var x': u32, y': u32 :| InRect(x', y', sx, y, x, y + 1) && Index(m, x', y') as int == i;
      assert InRect(x', y', sx, y, x + 1, y + 1);
    }
    assert CoveredInRow(m, Index(m, px, py) as int, sx, x + 1, y);
  }

  /** Inside the padded buffer, a slot is covered exactly when its column
      and row lie in the rectangle. */
  lemma CoveredIff(m: Mode, i: int, sx: int, sy: int, ex: int, ey: int)
    requires GeometryFits(m)
    requires ex <= ScanLine(m) && ey <= Height(m) as int
    ensures Covered(m, i, sx, sy, ex, ey)
        <==> ScanLine(m) > 0 && 0 <= i < ScanLine(m) * Height(m) as int
             && sx <= Column(m, i) < ex && sy <= Row(m, i) < ey
  {
    if Covered(m, i, sx, sy, ex, ey) {
      var x: u32, y: u32 :| InRect(x, y, sx, sy, ex, ey) && Index(m, x, y) as int == i;
      IndexInBuffer(m, x, y);
      PixelOfIndex(m, x, y);
    }
    if ScanLine(m) > 0 && 0 <= i < ScanLine(m) * Height(m) as int
       && sx <= Column(m, i) < ex && sy <= Row(m, i) < ey
    {
      IndexOfPixel(m, i);
      assert InRect(Column(m, i) as u32, Row(m, i) as u32, sx, sy, ex, ey);
    }
  }

  /** The full padded rectangle covers every slot of the padded buffer and
      no other. */
  lemma FullRectCoversBuffer(m: Mode, i: int)
    requires GeometryFits(m)
    ensures Covered(m, i, 0, 0, ScanLine(m), Height(m) as int)
        <==> 0 <= i < ScanLine(m) * Height(m) as int
  {
    var w, h := ScanLine(m), Height(m) as int;
    CoveredIff(m, i, 0, 0, w, h);
    if 0 <= i < w * h {
      assert w > 0;
      DivBelow(i, w, h);
    }
  }

  /** A 4 by 4 display without padding: the rectangle `[1, 3) x [1, 3)`
      covers slots 5, 6, 9 and 10 and no others. */
  lemma SmallRectExample(i: int)
    ensures var m := Mode(1, ModeInfo(4, 4, 4), 64);
            Covered(m, i, 1, 1, 3, 3) <==> i == 5 || i == 6 || i == 9 || i == 10
  {
    var m := Mode(1, ModeInfo(4, 4, 4), 64);
    CoveredIff(m, i, 1, 1, 3, 3);
  }
}
