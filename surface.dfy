/**
 * The pixel buffer being edited: the part of a pygame Surface the editor uses
 * (get_width, get_height, get_at, set_at), over RGBA colours.
 */
module Surface {
  import opened Wrappers

  /** One 8-bit colour channel. */
  newtype byte = x: int | 0 <= x < 256

  /** An RGBA colour. */
  datatype Color = Color(r: byte, g: byte, b: byte, a: byte)

  /** The fully transparent colour that erasing draws. */
  const ALPHA: Color := Color(0, 0, 0, 0)

  /** The colour the cursor draws with until another one is chosen. */
  const WHITE: Color := Color(255, 255, 255, 255)

  /** A pixel coordinate (x, y). */
  type Position = (int, int)

  /** Reading a pixel outside the image (pygame raises IndexError). */
  datatype Error = IndexOutOfRange(pos: Position)

  /** The contents of an image as a value: the pixel at column x, row y is g[x][y]. */
  type Grid = seq<seq<Color>>

  function Width(g: Grid): nat {
    |g|
  }

  function Height(g: Grid): nat {
    if |g| == 0 then 0 else |g[0]|
  }

  /** Every column has the same number of rows. */
  predicate Rectangular(g: Grid) {
    forall x :: 0 <= x < |g| ==> |g[x]| == Height(g)
  }

  /** Whether p addresses a pixel of a width x height image. */
  predicate Within(width: int, height: int, p: Position) {
    0 <= p.0 < width && 0 <= p.1 < height
  }

  predicate InBounds(g: Grid, p: Position) {
    Within(Width(g), Height(g), p)
  }

  /** `get_at`: the colour at p, or the error an out-of-range read raises. */
  function PixelAt(g: Grid, p: Position): (r: Result<Color, Error>)
    requires Rectangular(g)
    ensures r.Ok? <==> InBounds(g, p)
    ensures r.Err? ==> r.error == IndexOutOfRange(p)
  {
    if InBounds(g, p) then Ok(g[p.0][p.1]) else Err(IndexOutOfRange(p))
  }

  /** `set_at` on an in-range position: p holds c and every other pixel keeps its colour. */
  function WithPixel(g: Grid, p: Position, c: Color): (r: Grid)
    requires Rectangular(g) && InBounds(g, p)
    ensures Rectangular(r) && Width(r) == Width(g) && Height(r) == Height(g)
    ensures forall q :: InBounds(g, q) ==> PixelAt(r, q) == if q == p then Ok(c) else PixelAt(g, q)
  {
    g[p.0 := g[p.0][p.1 := c]]
  }

  /** Two images of the same size that agree on every pixel are equal. */
  lemma SameGrid(a: Grid, b: Grid)
    requires Rectangular(a) && Rectangular(b)
    requires Width(a) == Width(b) && Height(a) == Height(b)
    requires forall q :: InBounds(a, q) ==> PixelAt(a, q) == PixelAt(b, q)
    ensures a == b
  {
    forall x | 0 <= x < |a|
      ensures a[x] == b[x]
    {
      forall y | 0 <= y < |a[x]|
        ensures a[x][y] == b[x][y]
      {
        assert PixelAt(a, (x, y)) == PixelAt(b, (x, y));
      }
    }
  }

  /** Writing a pixel twice keeps only the second colour. */
  lemma WithPixelTwice(g: Grid, p: Position, c: Color, d: Color)
    requires Rectangular(g) && InBounds(g, p)
    ensures WithPixel(WithPixel(g, p, c), p, d) == WithPixel(g, p, d)
  {
    SameGrid(WithPixel(WithPixel(g, p, c), p, d), WithPixel(g, p, d));
  }

  /** Writing a pixel's own colour back changes nothing. */
  lemma WithPixelUnchanged(g: Grid, p: Position)
    requires Rectangular(g) && InBounds(g, p)
    ensures WithPixel(g, p, g[p.0][p.1]) == g
  {
    SameGrid(WithPixel(g, p, g[p.0][p.1]), g);
  }

  /** A pixel buffer of fixed size whose pixels are overwritten in place. */
  class Canvas {
    const pixels: array2<Color>

    /** A fresh width x height image filled with one colour. */
    constructor (width: nat, height: nat, fill: Color)
      ensures fresh(pixels)
      ensures GetWidth() == width && GetHeight() == height
      ensures forall p :: Within(width, height, p) ==> PixelAt(Contents(), p) == Ok(fill)
    {
      pixels := new Color[width, height]((x, y) => fill);
    }

    function GetWidth(): nat {
      pixels.Length0
    }

    function GetHeight(): nat {
      pixels.Length1
    }

    /** The image's current contents as a value. */
    ghost function Contents(): (g: Grid)
      reads pixels
      ensures Rectangular(g) && Width(g) == pixels.Length0
      ensures forall x :: 0 <= x < |g| ==> |g[x]| == pixels.Length1
      ensures forall p :: InBounds(g, p) <==> Within(pixels.Length0, pixels.Length1, p)
      ensures forall x, y :: Within(pixels.Length0, pixels.Length1, (x, y)) ==> g[x][y] == pixels[x, y]
    {
      seq(pixels.Length0, x requires 0 <= x < pixels.Length0 reads pixels =>
        seq(pixels.Length1, y requires 0 <= y < pixels.Length1 reads pixels => pixels[x, y]))
    }

    /** `get_at`: reads one pixel, failing outside the image. */
    method GetAt(p: Position) returns (r: Result<Color, Error>)
      ensures r == PixelAt(Contents(), p)
    {
      if 0 <= p.0 < pixels.Length0 && 0 <= p.1 < pixels.Length1 {
        r := Ok(pixels[p.0, p.1]);
      } else {
        r := Err(IndexOutOfRange(p));
      }
    }

    /** `set_at`: overwrites one in-range pixel. */
    method SetAt(p: Position, c: Color)
      requires InBounds(Contents(), p)
      modifies pixels
      ensures Contents() == WithPixel(old(Contents()), p, c)
    {
      pixels[p.0, p.1] := c;
      SameGrid(Contents(), WithPixel(old(Contents()), p, c));
    }
  }
}
