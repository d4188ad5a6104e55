/**
 * The editor's state transitions (pypixelart/py_pixel_art.py): the cursor, the zoom, the
 * symmetry mode and the colour, and the draw, erase, undo and redo keys that hand commands
 * to the controller.
 */
module PixelArt {
  import opened Wrappers
  import opened Surface
  import opened SymmetryTypes
  import opened Utils
  import opened Commands
  import opened Controller

  const WINDOW_WIDTH: int := 600
  const WINDOW_HEIGHT: int := 600

  /** Percent of the zoom left free for the rest of the interface. */
  const MARGIN_PERCENT: int := 20

  /** The zoom settings: the percentage shown, the step a key press moves it by, and whether it moved. */
  datatype Zoom = Zoom(percent: int, step: int, changed: bool)

  /**
   * The initial zoom: 100 times the window size over the image's larger dimension (the width
   * when it is strictly larger, otherwise the height), less the margin.
   */
  function InitialZoomPercent(width: nat, height: nat): (percent: int)
    requires width > 0 || height > 0
    ensures percent >= 0
  {
    QuotientBelow(WINDOW_WIDTH * 100, if width > 0 then width else 1);
    QuotientBelow(WINDOW_HEIGHT * 100, if height > 0 then height else 1);
    var fitted := if width > height then (WINDOW_WIDTH * 100) / width else (WINDOW_HEIGHT * 100) / height;
    (fitted * (100 - MARGIN_PERCENT)) / 100
  }

  /** The initial zoom step: 5% of the zoom, or 1 when that is 0. */
  function InitialZoomStep(percent: int): (step: int)
    ensures percent >= 0 ==> step >= 1
    ensures 0 <= percent < 20 ==> step == 1
    ensures percent >= 20 ==> step * 20 <= percent < step * 20 + 20
  {
    var step := percent / 20;
    if step == 0 then 1 else step
  }

  /**
   * At the initial zoom the scaled image fits in 80% of the 600 x 600 window: neither scaled
   * dimension exceeds 480.
   */
  lemma {:induction false} InitialZoomFitsWindow(width: nat, height: nat)
    requires width > 0 || height > 0
    ensures ScaledResolution(width, height, InitialZoomPercent(width, height)).0 <= 480
    ensures ScaledResolution(width, height, InitialZoomPercent(width, height)).1 <= 480
  {
    var largest: nat := if width > height then width else height;
    var fitted := 60000 / largest;
    var percent := InitialZoomPercent(width, height);
    assert percent == (fitted * 80) / 100;
    QuotientBelow(60000, largest);
    QuotientBelow(fitted * 80, 100);
    MarginBound(largest, fitted, percent);
    ScaledBelow(width, largest, percent);
    ScaledBelow(height, largest, percent);
  }

  /** A zoom at most 80% of the fitted one, times the dimension fitted to 60000, is at most 48000. */
  lemma MarginBound(largest: nat, fitted: nat, percent: nat)
    requires fitted * largest <= 60000 && percent * 100 <= fitted * 80
    ensures percent * largest <= 48000
  {
    ProductBelow(percent * 100, fitted * 80, largest);
    assert percent * 100 * largest == (percent * largest) * 100;
    assert fitted * 80 * largest == (fitted * largest) * 80;
  }

  /** A dimension no larger than the one the zoom was fitted to scales to at most 480. */
  lemma ScaledBelow(dimension: nat, largest: nat, percent: nat)
    requires dimension <= largest && percent * largest <= 48000
    ensures dimension * percent / 100 <= 480
  {
    ProductBelow(dimension, largest, percent);
    assert dimension * percent <= 48000;
  }

  lemma QuotientBelow(a: nat, b: nat)
    requires b > 0
    ensures (a / b) * b <= a && a / b >= 0
  {
  }

  lemma ProductBelow(a: int, b: int, c: nat)
    requires a <= b
    ensures a * c <= b * c
  {
    assert b * c - a * c == (b - a) * c;
  }

  /** The initial zoom is positive exactly when the larger dimension is at most 30000 pixels. */
  lemma {:induction false} InitialZoomPositive(width: nat, height: nat)
    requires width > 0 || height > 0
    ensures InitialZoomPercent(width, height) > 0 <==> width <= 30000 && height <= 30000
  {
    var largest := if width > height then width else height;
    var fitted := 60000 / largest;
    assert InitialZoomPercent(width, height) == (fitted * 80) / 100;
    if largest <= 30000 {
      assert 2 * largest <= 60000;
      assert fitted >= 2;
    } else {
      assert 2 * largest > 60000;
      assert fitted < 2;
    }
  }

  /** `set_zoom`: adds or subtracts one step, only when the result stays positive, and marks the zoom changed. */
  function Zoomed(z: Zoom, isPositiveStep: bool): (r: Zoom)
    ensures r.step == z.step
    ensures z.percent > 0 ==> r.percent > 0
  {
    var toAdd := if isPositiveStep then z.step else -z.step;
    if z.percent + toAdd > 0 then z.(percent := z.percent + toAdd, changed := true) else z
  }

  /**
   * A zoom key moves the zoom by exactly one step and marks it changed when the result is
   * positive, and otherwise leaves the zoom as it was.
   */
  lemma ZoomedMovesOneStep(z: Zoom, isPositiveStep: bool)
    ensures var toAdd := if isPositiveStep then z.step else -z.step;
      var r := Zoomed(z, isPositiveStep);
      && (z.percent + toAdd > 0 ==> r == z.(percent := z.percent + toAdd, changed := true))
      && (z.percent + toAdd <= 0 ==> r == z)
  {
  }

  /** Zooming in and then out returns to the same percentage. */
  lemma ZoomInThenOut(z: Zoom)
    requires z.percent > 0 && z.step >= 0
    ensures Zoomed(Zoomed(z, true), false).percent == z.percent
  {
  }

  /** `move_cursor`'s new coordinate: the old one plus the offset, modulo the size (Python's `%` on a positive size). */
  function Wrap(coord: int, delta: int, size: int): (r: int)
    requires size > 0
    ensures 0 <= r < size
  {
    (coord + delta) % size
  }

  /** One step past the last coordinate wraps to 0, one step before 0 wraps to the last. */
  lemma {:induction false} WrapSteps(coord: int, size: int)
    requires 0 <= coord < size
    ensures Wrap(coord, 1, size) == if coord == size - 1 then 0 else coord + 1
    ensures Wrap(coord, -1, size) == if coord == 0 then size - 1 else coord - 1
    ensures Wrap(coord, 0, size) == coord
  {
    ModOfRange(coord + 1, size, if coord == size - 1 then 0 else coord + 1, if coord == size - 1 then 1 else 0);
    ModOfRange(coord - 1, size, if coord == 0 then size - 1 else coord - 1, if coord == 0 then -1 else 0);
    ModOfRange(coord, size, coord, 0);
  }

  /** The remainder of x by size when x lies within one size of the range [0, size). */
  lemma ModOfRange(x: int, size: int, r: int, q: int)
    requires size > 0 && 0 <= r < size && -1 <= q <= 1
    requires x == (if q == 1 then size else if q == -1 then -size else 0) + r
    ensures x % size == r
  {
  }

  /** The editor: the image, the controller, and the settings the keys change. */
  class PyPixelArt {
    const image: Canvas
    const commandController: CommandController
    var cursorPosition: Position
    var cursorDrawColor: Color
    var zoom: Zoom
    var symmetry: SymmetryType

    /** The cursor is on a pixel of the image and the controller works on that image. */
    ghost predicate Valid()
      reads this, commandController, image.pixels
    {
      && commandController.image == image
      && commandController.Valid()
      && image.GetWidth() > 0 && image.GetHeight() > 0
      && Within(image.GetWidth(), image.GetHeight(), cursorPosition)
      && zoom.step >= 1
    }

    /**
     * The cursor starts at (0, 0) drawing white, without symmetry, with empty stacks and the
     * initial zoom of the image.
     */
    constructor (image: Canvas)
      requires image.GetWidth() > 0 && image.GetHeight() > 0
      ensures Valid()
      ensures this.image == image && fresh(commandController)
      ensures commandController.State() == History(image.Contents(), [], [])
      ensures cursorPosition == (0, 0) && cursorDrawColor == WHITE && symmetry == NoSymmetry
      ensures zoom == Zoom(InitialZoomPercent(image.GetWidth(), image.GetHeight()),
                           InitialZoomStep(InitialZoomPercent(image.GetWidth(), image.GetHeight())), false)
    {
      this.image := image;
      cursorPosition := (0, 0);
      cursorDrawColor := WHITE;
      commandController := new CommandController(image);
      var initialZoomPercent;
      if image.GetWidth() > image.GetHeight() {
        initialZoomPercent := (WINDOW_WIDTH * 100) / image.GetWidth();
      } else {
        initialZoomPercent := (WINDOW_HEIGHT * 100) / image.GetHeight();
      }
      initialZoomPercent := (initialZoomPercent * (100 - MARGIN_PERCENT)) / 100;
      assert initialZoomPercent == InitialZoomPercent(image.GetWidth(), image.GetHeight());
      var zoomStepPercent := initialZoomPercent / 20;
      zoomStepPercent := if zoomStepPercent == 0 then 1 else zoomStepPercent;
      zoom := Zoom(initialZoomPercent, zoomStepPercent, false);
      symmetry := NoSymmetry;
    }

    method SetZoom(isPositiveStep: bool)
      requires Valid()
      modifies this
      ensures Valid()
      ensures zoom == Zoomed(old(zoom), isPositiveStep)
      ensures cursorPosition == old(cursorPosition) && cursorDrawColor == old(cursorDrawColor)
      ensures symmetry == old(symmetry)
    {
      var toAdd := if isPositiveStep then zoom.step else -zoom.step;
      if zoom.percent + toAdd > 0 {
        zoom := zoom.(changed := true);
        zoom := zoom.(percent := zoom.percent + toAdd);
      }
    }

    method MoveCursor(x: int, y: int)
      requires Valid()
      modifies this
      ensures Valid()
      ensures cursorPosition == (Wrap(old(cursorPosition).0, x, image.GetWidth()),
                                 Wrap(old(cursorPosition).1, y, image.GetHeight()))
      ensures zoom == old(zoom) && cursorDrawColor == old(cursorDrawColor) && symmetry == old(symmetry)
    {
      var newX := (cursorPosition.0 + x) % image.GetWidth();
      var newY := (cursorPosition.1 + y) % image.GetHeight();
      cursorPosition := (newX, newY);
    }

    method SetSymmetry()
      requires Valid()
      modifies this
      ensures Valid()
      ensures symmetry == Next(old(symmetry))
      ensures cursorPosition == old(cursorPosition) && cursorDrawColor == old(cursorDrawColor) && zoom == old(zoom)
      ensures commandController.State() == old(commandController.State())
    {
      var next := FromValue((Value(symmetry) + 1) % |AllModes|);
      symmetry := next.value;
    }

    method SetCursorColor(selectedColor: Color)
      requires Valid()
      modifies this
      ensures Valid()
      ensures cursorDrawColor == selectedColor
      ensures cursorPosition == old(cursorPosition) && zoom == old(zoom) && symmetry == old(symmetry)
    {
      cursorDrawColor := selectedColor;
    }

    /** Draws the cursor colour at the cursor under the current symmetry, through the controller. */
    method DrawPixel() returns (r: Result<DrawPixelAtCursor, Error>)
      requires Valid()
      modifies commandController, image.pixels
      ensures Valid()
      ensures commandController.State() ==
        ExecuteStep(old(commandController.State()), NewCommand(cursorPosition, cursorDrawColor, symmetry))
      ensures r == ExecuteOn(old(image.Contents()), NewCommand(cursorPosition, cursorDrawColor, symmetry)).result
    {
      var drawCommand := NewCommand(cursorPosition, cursorDrawColor, symmetry);
      r := commandController.Execute(drawCommand);
    }

    /** Erasing is drawing the transparent colour at the cursor, also through the controller. */
    method ErasePixel() returns (r: Result<DrawPixelAtCursor, Error>)
      requires Valid()
      modifies commandController, image.pixels
      ensures Valid()
      ensures commandController.State() ==
        ExecuteStep(old(commandController.State()), NewCommand(cursorPosition, ALPHA, symmetry))
      ensures r == ExecuteOn(old(image.Contents()), NewCommand(cursorPosition, ALPHA, symmetry)).result
    {
      var eraseCommand := NewCommand(cursorPosition, ALPHA, symmetry);
      r := commandController.Execute(eraseCommand);
    }

    method Undo()
      requires Valid()
      modifies commandController, image.pixels
      ensures Valid()
      ensures commandController.State() == UndoStep(old(commandController.State()))
    {
      commandController.Undo();
    }

    method Redo()
      requires Valid()
      modifies commandController, image.pixels
      ensures Valid()
      ensures commandController.State() == RedoStep(old(commandController.State()))
    {
      commandController.Redo();
    }
  }
}
