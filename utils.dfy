/**
 * The symmetric pixel write and the scaled resolution (pypixelart/utils.py):
 * drawing a pixel and, under a symmetry mode, its mirror image.
 */
module Utils {
  import opened Wrappers
  import opened Surface
  import opened SymmetryTypes

  /**
   * The mirror of a coordinate across the middle of a dimension of the given size:
   * middle + (middle - coord) - 1 with middle = size // 2.
   * (Python's `//` and Dafny's `/` agree on a non-negative size.)
   */
  function MirrorCoordinate(coord: int, size: nat): (m: int)
    ensures coord < size / 2 <==> m >= size / 2
  {
    var middle := size / 2;
    middle + (middle - coord) - 1
  }

  /** No coordinate is its own mirror: coord + mirror is the odd number 2 * (size // 2) - 1. */
  lemma MirrorNeverFixed(coord: int, size: nat)
    ensures MirrorCoordinate(coord, size) != coord
  {
  }

  /** For an even size the mirror is size - 1 - coord: it is in range and mirroring twice gives coord back. */
  lemma MirrorEvenSize(coord: int, size: nat)
    requires size % 2 == 0 && 0 <= coord < size
    ensures MirrorCoordinate(coord, size) == size - 1 - coord
    ensures 0 <= MirrorCoordinate(coord, size) < size
    ensures MirrorCoordinate(MirrorCoordinate(coord, size), size) == coord
  {
  }

  /** On a 10-pixel-wide image column 2 mirrors to column 7 and back; on a 9-pixel one, column 8 to -1. */
  lemma MirrorExamples()
    ensures MirrorCoordinate(2, 10) == 7 && MirrorCoordinate(7, 10) == 2
    ensures MirrorCoordinate(8, 9) == -1 && MirrorCoordinate(4, 9) == 3
  {
  }

  /**
   * For an odd size the mirror is size - 2 - coord: the last coordinate mirrors to -1,
   * every other one into the range and back again.
   */
  lemma MirrorOddSize(coord: int, size: nat)
    requires size % 2 == 1 && 0 <= coord < size
    ensures coord == size - 1 ==> MirrorCoordinate(coord, size) == -1
    ensures coord < size - 1 ==> 0 <= MirrorCoordinate(coord, size) < size - 1
    ensures coord < size - 1 ==> MirrorCoordinate(MirrorCoordinate(coord, size), size) == coord
  {
  }

  /** An in-range coordinate mirrors into the range exactly unless it is the last one of an odd size. */
  lemma MirrorInRange(coord: int, size: nat)
    requires 0 <= coord < size
    ensures 0 <= MirrorCoordinate(coord, size) < size <==> !(size % 2 == 1 && coord == size - 1)
  {
  }

  /**
   * The pixel a write at p is mirrored to in a width x height image: none without symmetry,
   * the mirrored column under Vertical, the mirrored row under Horizontal.
   */
  function MirrorPosition(width: nat, height: nat, p: Position, mode: SymmetryType): (m: Option<Position>)
    ensures m.None? <==> !IsMirrored(mode)
    ensures m.Some? ==> m.value != p
  {
    match mode
    case NoSymmetry => None
    case Vertical =>
      MirrorNeverFixed(p.0, width);
      Some((MirrorCoordinate(p.0, width), p.1))
    case Horizontal =>
      MirrorNeverFixed(p.1, height);
      Some((p.0, MirrorCoordinate(p.1, height)))
  }

  /** A pixel and the colour it held: the second undo entry of a draw. */
  datatype PixelRecord = PixelRecord(pos: Position, color: Color)

  /** The image after a symmetric write, and what the write returned or raised. */
  datatype DrawOutcome = DrawOutcome(grid: Grid, result: Result<Option<PixelRecord>, Error>)

  /**
   * `draw_pixel`: writes color at p; under a symmetry mode then reads the mirror pixel
   * (after the first write), writes color there too and returns the mirror and the colour read.
   * If the mirror is outside the image the read raises, after p was already written.
   */
  function SymmetricWrite(g: Grid, p: Position, color: Color, mode: SymmetryType): (out: DrawOutcome)
    requires Rectangular(g) && InBounds(g, p)
    ensures Rectangular(out.grid) && Width(out.grid) == Width(g) && Height(out.grid) == Height(g)
  {
    var written := WithPixel(g, p, color);
    match MirrorPosition(Width(written), Height(written), p, mode)
    case None => DrawOutcome(written, Ok(None))
    case Some(m) =>
      match PixelAt(written, m)
      case Err(e) => DrawOutcome(written, Err(e))
      case Ok(c) => DrawOutcome(WithPixel(written, m, color), Ok(Some(PixelRecord(m, c))))
  }

  /** Without symmetry only p is written, every other pixel keeps its colour, and None is returned. */
  lemma WriteWithoutSymmetry(g: Grid, p: Position, color: Color)
    requires Rectangular(g) && InBounds(g, p)
    ensures SymmetricWrite(g, p, color, NoSymmetry).result == Ok(None)
    ensures forall q :: InBounds(g, q) ==>
      PixelAt(SymmetricWrite(g, p, color, NoSymmetry).grid, q) == if q == p then Ok(color) else PixelAt(g, q)
  {
  }

  /**
   * Under a symmetry mode with the mirror m inside the image, p and m both hold color, no other
   * pixel changes, and the result is m with the colour it held before the call (the read after
   * the first write sees the original colour, because m is never p).
   */
  lemma WriteMirrored(g: Grid, p: Position, color: Color, mode: SymmetryType, m: Position)
    requires Rectangular(g) && InBounds(g, p)
    requires MirrorPosition(Width(g), Height(g), p, mode) == Some(m) && InBounds(g, m)
    ensures SymmetricWrite(g, p, color, mode).result == Ok(Some(PixelRecord(m, g[m.0][m.1])))
    ensures forall q :: InBounds(g, q) ==>
      PixelAt(SymmetricWrite(g, p, color, mode).grid, q) == if q == p || q == m then Ok(color) else PixelAt(g, q)
  {
    var written := WithPixel(g, p, color);
    assert PixelAt(written, m) == PixelAt(g, m);
  }

  /**
   * Under a symmetry mode with the mirror m outside the image, the call raises IndexOutOfRange(m)
   * and leaves p already holding color.
   */
  lemma WriteMirrorOutside(g: Grid, p: Position, color: Color, mode: SymmetryType, m: Position)
    requires Rectangular(g) && InBounds(g, p)
    requires MirrorPosition(Width(g), Height(g), p, mode) == Some(m) && !InBounds(g, m)
    ensures SymmetricWrite(g, p, color, mode) == DrawOutcome(WithPixel(g, p, color), Err(IndexOutOfRange(m)))
  {
  }

  /**
   * On an image of odd width, a Vertical write in the last column mirrors to column -1: it raises,
   * and the primary pixel stays written. (Likewise Horizontal in the last row of an odd height.)
   */
  lemma OddWidthLastColumnFails(g: Grid, y: int, color: Color)
    requires Rectangular(g) && Width(g) % 2 == 1 && 0 <= y < Height(g)
    ensures var p := (Width(g) - 1, y);
      && SymmetricWrite(g, p, color, Vertical).result == Err(IndexOutOfRange((-1, y)))
      && PixelAt(SymmetricWrite(g, p, color, Vertical).grid, p) == Ok(color)
  {
    MirrorOddSize(Width(g) - 1, Width(g));
  }

  /** The Horizontal counterpart of OddWidthLastColumnFails. */
  lemma OddHeightLastRowFails(g: Grid, x: int, color: Color)
    requires Rectangular(g) && Height(g) % 2 == 1 && 0 <= x < Width(g)
    ensures var p := (x, Height(g) - 1);
      && SymmetricWrite(g, p, color, Horizontal).result == Err(IndexOutOfRange((x, -1)))
      && PixelAt(SymmetricWrite(g, p, color, Horizontal).grid, p) == Ok(color)
  {
    MirrorOddSize(Height(g) - 1, Height(g));
  }

  /** `draw_pixel` on the shared image, one pygame call after another. */
  method DrawPixel(image: Canvas, position: Position, color: Color, symmetryType: SymmetryType)
    returns (r: Result<Option<PixelRecord>, Error>)
    requires InBounds(image.Contents(), position)
    modifies image.pixels
    ensures image.Contents() == SymmetricWrite(old(image.Contents()), position, color, symmetryType).grid
    ensures r == SymmetricWrite(old(image.Contents()), position, color, symmetryType).result
  {
    var (pixelX, pixelY) := position;
    if symmetryType == NoSymmetry {
      image.SetAt(position, color);
      return Ok(None);
    } else if symmetryType == Vertical {
      image.SetAt(position, color);
      var middleW := image.GetWidth() / 2;
      var symmetricDrawPos := (middleW + (middleW - pixelX) - 1, pixelY);
      var symmetricPosColor := image.GetAt(symmetricDrawPos);
      if symmetricPosColor.Err? {
        return Err(symmetricPosColor.error);
      }
      image.SetAt(symmetricDrawPos, color);
      return Ok(Some(PixelRecord(symmetricDrawPos, symmetricPosColor.value)));
    } else {
      image.SetAt(position, color);
      var middleH := image.GetHeight() / 2;
      var symmetricDrawPos := (pixelX, middleH + (middleH - pixelY) - 1);
      var symmetricPosColor := image.GetAt(symmetricDrawPos);
      if symmetricPosColor.Err? {
        return Err(symmetricPosColor.error);
      }
      image.SetAt(symmetricDrawPos, color);
      return Ok(Some(PixelRecord(symmetricDrawPos, symmetricPosColor.value)));
    }
  }

  /** `scale_surface`'s new resolution: each dimension times percentage, floor-divided by 100. */
  function ScaledResolution(width: nat, height: nat, percentage: int): (r: (int, int))
    ensures percentage >= 0 ==> r.0 >= 0 && r.1 >= 0
  {
    (width * percentage / 100, height * percentage / 100)
  }

  /** Each scaled dimension is the largest integer whose hundredfold does not exceed dim * percentage. */
  lemma ScaledResolutionBounds(width: nat, height: nat, percentage: int)
    ensures var r := ScaledResolution(width, height, percentage);
      && r.0 * 100 <= width * percentage < r.0 * 100 + 100
      && r.1 * 100 <= height * percentage < r.1 * 100 + 100
  {
  }

  /** At 100 percent the resolution is unchanged, and a larger percentage never gives a smaller image. */
  lemma ScaledResolutionMonotone(width: nat, height: nat, p: int, q: int)
    requires p <= q
    ensures ScaledResolution(width, height, 100) == (width, height)
    ensures ScaledResolution(width, height, p).0 <= ScaledResolution(width, height, q).0
    ensures ScaledResolution(width, height, p).1 <= ScaledResolution(width, height, q).1
  {
    assert width * p <= width * q && height * p <= height * q by {
      MultiplyMonotone(width, p, q);
      MultiplyMonotone(height, p, q);
    }
  }

  lemma MultiplyMonotone(a: nat, p: int, q: int)
    requires p <= q
    ensures a * p <= a * q
  {
    assert a * q - a * p == a * (q - p);
  }
}
