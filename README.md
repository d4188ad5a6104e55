# pypixelart edit core, modelled in Dafny

This project models the edit core of pypixelart, a keyboard-driven pixel-art editor. It covers
every step from a key press to a change in the pixel buffer, and how that change is taken back:

- the symmetry mode and how the symmetry key cycles it;
- the symmetric pixel write, which draws a pixel and, under Horizontal or Vertical symmetry, its
  mirror across the middle row or column;
- the reversible draw command, which records what it overwrote and writes it back on undo;
- the undo/redo controller with its two stacks;
- the editor's own state: cursor, zoom, symmetry, colour, and the draw, erase, undo and redo keys.

Modules, one per source file:

| module | file | source |
|---|---|---|
| `Wrappers` | wrappers.dfy | `Option` and `Result`: Python's `None` and raised exceptions |
| `SymmetryTypes` | symmetry_type.dfy | pypixelart/symmetry_type.py |
| `Surface` | surface.dfy | the pygame Surface calls the core uses (`get_at`, `set_at`, `get_width`, `get_height`) |
| `Utils` | utils.dfy | `draw_pixel` and `scale_surface` in pypixelart/utils.py |
| `Commands` | commands.dfy | pypixelart/command/commands.py |
| `Controller` | controller.dfy | pypixelart/command/controller.py |
| `PixelArt` | py_pixel_art.dfy | the state transitions of `PyPixelArt` in pypixelart/py_pixel_art.py |

Each stateful entity is modelled twice: once as a value, once as an object.

- The value-level definitions are specification functions over a `Grid` value (`grid[x][y]`):
  `SymmetricWrite`, `ExecuteOn`, `UndoOn`, and `ExecuteStep`/`UndoStep`/`RedoStep` over a
  `History` (the image plus both stacks).
- The imperative code works in place. `Canvas` wraps an `array2` of colours. `DrawPixel` and the
  command methods issue the same sequence of `get_at`/`set_at` calls as the source.
  `Canvas`'s constructor stands for creating a pygame `Surface`, which lies outside this model; it
  exists only so that a `Canvas` can be built.
  `CommandController` and `PyPixelArt` are classes whose methods reassign their fields.
- Every method's `ensures` equates the new state with the specification function applied to the
  old state. The lemmas prove the properties about those functions.

Python exceptions are modelled as `Err` results. Where the source raises after changing the
image, the model returns the changed image together with the error.

How the mirror arithmetic works out:

- The mirror of coordinate `x` in a dimension of size `w` is `w//2 + (w//2 - x) - 1`.
  - For an even size this is `w-1-x`. For example, column 2 of a 10-pixel-wide image mirrors to
    column 10//2 + (10//2 - 2) - 1 = 7.
  - For an odd size it is `w-2-x`, so no pixel is ever its own mirror. The last column (or row)
    mirrors to -1.
  - In that odd-size case the read of the mirror pixel raises. By then the primary pixel has
    already been written.
  - The exception leaves the command without its previous state and both stacks untouched. The
    model states this outcome (`OddWidthLastColumnFails`, `Controller.ExecuteStep`): that pixel
    change is not on the undo stack.
- Because a pixel never mirrors to itself, undoing the two entries in order (primary first, then
  mirror) always restores the image exactly.

## Model

| member | source | states |
|---|---|---|
| `SymmetryTypes.Value` | pypixelart/symmetry_type.py:12-22 | each mode's integer value is its position in the list NoSymmetry, Horizontal, Vertical, so values are 0, 1, 2 |
| `SymmetryTypes.FromValue` | pypixelart/symmetry_type.py:12-14 | `SymmetryType(v)` yields a mode exactly for v in 0..2, and that mode has value v; any other v is refused |
| `SymmetryTypes.Next` | pypixelart/py_pixel_art.py:195-198 | the next mode's value is (value + 1) mod the number of modes, so "next mode" is total |
| `SymmetryTypes.ExactlyThreeModes` | pypixelart/symmetry_type.py:17-22 | exactly three modes with values 0, 1, 2, no two sharing a value; only Horizontal and Vertical mirror |
| `SymmetryTypes.NextCycles` | pypixelart/py_pixel_art.py:195-198 | the symmetry key cycles NoSymmetry → Horizontal → Vertical → NoSymmetry: never a fixed point, period three |
| `Surface.PixelAt` | pypixelart/utils.py:354 | reading a pixel succeeds exactly inside the image and otherwise fails with IndexOutOfRange at that position |
| `Surface.WithPixel` | pypixelart/utils.py:347 | writing an in-range pixel keeps the image's size, gives that pixel the new colour and leaves every other pixel as it was |
| `Surface.Canvas.GetAt` | pypixelart/utils.py:354 | reading a pixel yields its colour inside the image and IndexOutOfRange outside it |
| `Surface.Canvas.SetAt` | pypixelart/utils.py:347 | writing an in-range pixel changes that pixel and nothing else |
| `Utils.MirrorCoordinate` | pypixelart/utils.py:352-353 | a coordinate left of the middle mirrors to the middle or right of it, and one at or right of the middle mirrors to the left of it |
| `Utils.MirrorNeverFixed` | pypixelart/utils.py:353 | the mirror coordinate never equals the original one |
| `Utils.MirrorEvenSize` | pypixelart/utils.py:329-353 | for an even size the mirror is size-1-x, lies in range, and mirroring twice gives x back |
| `Utils.MirrorOddSize` | pypixelart/utils.py:351-354 | for an odd size the last coordinate mirrors to -1; every other one mirrors into range and back |
| `Utils.MirrorInRange` | pypixelart/utils.py:352-354 | an in-range coordinate's mirror is in range exactly when it is not the last one of an odd size |
| `Utils.MirrorExamples` | pypixelart/utils.py:352-353 | width 10: column 2 ↔ 7; width 9: column 8 → -1, column 4 → 3 |
| `Utils.MirrorPosition` | pypixelart/utils.py:350-361 | there is a mirror pixel exactly when the mode mirrors, and it is never the drawn pixel |
| `Utils.SymmetricWrite` | pypixelart/utils.py:318-364 | the symmetric write keeps the image's size |
| `Utils.WriteWithoutSymmetry` | pypixelart/utils.py:346-348 | with NoSymmetry only the position changes (to the colour), every other pixel is unchanged, and None is returned |
| `Utils.WriteMirrored` | pypixelart/utils.py:350-364 | with symmetry and an in-range mirror, the position and its mirror both hold the colour, nothing else changes, and the result is the mirror with the colour it held before the call |
| `Utils.WriteMirrorOutside` | pypixelart/utils.py:351-354 | with an out-of-range mirror the write raises IndexOutOfRange at the mirror, after the primary pixel was written |
| `Utils.OddWidthLastColumnFails` | pypixelart/utils.py:350-356 | Vertical in the last column of an odd-width image raises at (-1, y) and leaves the primary pixel drawn |
| `Utils.OddHeightLastRowFails` | pypixelart/utils.py:358-364 | Horizontal in the last row of an odd-height image raises at (x, -1) and leaves the primary pixel drawn |
| `Utils.DrawPixel` | pypixelart/utils.py:318-364 | the in-place write leaves the image and returns the result that `SymmetricWrite` specifies |
| `Utils.ScaledResolution` | pypixelart/utils.py:312-314 | a non-negative percentage gives non-negative scaled dimensions |
| `Utils.ScaledResolutionBounds` | pypixelart/utils.py:312-314 | each scaled dimension is dim * percentage floor-divided by 100 |
| `Utils.ScaledResolutionMonotone` | pypixelart/utils.py:308-315 | 100 percent keeps the resolution; a larger percentage never gives a smaller one |
| `Commands.NewCommand` | pypixelart/command/commands.py:12-20 | a new command holds its position, colour and mode and has no previous state |
| `Commands.ExecuteOn` | pypixelart/command/commands.py:22-30 | execute succeeds exactly when the position and its mirror are in the image; an out-of-range position leaves the image and raises IndexOutOfRange; otherwise the image is the one `SymmetricWrite` draws (primary pixel, then mirror); on success the command keeps its fields and records the primary pixel with its colour before the write and the mirror entry `draw_pixel` returned (None without symmetry), all inside the image |
| `Commands.ExecuteDraws` | pypixelart/command/commands.py:24-26 | after a successful execute exactly the command's pixel and its mirror (under symmetry) hold the new colour; every other pixel keeps its colour |
| `Commands.WriteBack` | pypixelart/command/commands.py:40-42 | writing one recorded entry back sets that pixel to the recorded colour and leaves every other pixel as it was; a None entry changes nothing |
| `Commands.UndoOn` | pypixelart/command/commands.py:37-42 | writing the entries back keeps the image's size |
| `Commands.UndoTwo` | pypixelart/command/commands.py:38-42 | undo writes the primary entry back first, then the mirror entry, skipping None |
| `Commands.RecordedEntriesWithin` | pypixelart/command/commands.py:18-30 | an executed command's entries lie inside any image of the size it was executed on |
| `Commands.ExecuteUndoRoundTrip` | pypixelart/command/commands.py:22-42 | execute followed by undo leaves the image equal to its state before execute |
| `Commands.ExecuteIgnoresPrevious` | pypixelart/command/commands.py:14-30 | what execute does depends only on position, colour and mode, not on the recorded previous state |
| `Commands.ExecuteUndoRedo` | pypixelart/command/commands.py:47-48 | redo after undo yields the same image and the same recorded previous state as the first execute |
| `Commands.Execute` | pypixelart/command/commands.py:22-30 | the in-place execute leaves the image and returns the command that `ExecuteOn` specifies |
| `Commands.Undo` | pypixelart/command/commands.py:37-42 | the in-place undo loop leaves the image that `UndoOn` specifies; it needs an executed command |
| `Commands.Redo` | pypixelart/command/commands.py:47-48 | redo is exactly execute |
| `Controller.ExecuteStep` | pypixelart/command/controller.py:11-14 | on success the redo stack is emptied and the executed command (same fields) is pushed on the undo stack; if execute raises, neither stack changes; the history stays valid |
| `Controller.UndoStep` | pypixelart/command/controller.py:16-20 | with an empty undo stack nothing changes; otherwise its top moves onto the redo stack; the total number of commands is kept |
| `Controller.RedoStep` | pypixelart/command/controller.py:22-26 | with an empty redo stack nothing changes; otherwise its top, re-executed, moves onto the undo stack; the total is kept |
| `Controller.ExecuteThenUndo` | pypixelart/command/controller.py:11-20 | execute then undo restores the image and the undo stack, leaving that command alone on the redo stack |
| `Controller.ExecuteUndoRedoStep` | pypixelart/command/controller.py:11-26 | execute, undo, redo gives exactly the state execute alone gave |
| `Controller.RedoChainInvalidated` | pypixelart/command/controller.py:11-14 | after execute, undo, execute of another command, redo is a no-op and the image is only the second command's drawing |
| `Controller.UndoIgnoresRedo` | pypixelart/command/controller.py:16-20 | what undo does to the image and undo stack does not depend on the redo stack |
| `Controller.UndoAfterStep` | pypixelart/command/controller.py:11-20 | one undo from any state with the image and undo stack an execute left restores the image and undo stack from before that execute |
| `Controller.ExecuteAllUndoAll` | pypixelart/command/controller.py:11-20 | N successful executes followed by N undos restore the image pixel for pixel, and the undo stack |
| `Controller.UndoTimes` | pypixelart/command/controller.py:16-20 | repeated undos keep the history valid and the command count, and shrink the undo stack by one each, down to empty |
| `Controller.CommandController.constructor` | pypixelart/command/controller.py:6-9 | both stacks start empty |
| `Controller.CommandController.Execute` | pypixelart/command/controller.py:11-14 | the in-place execute follows `ExecuteStep` |
| `Controller.CommandController.Undo` | pypixelart/command/controller.py:16-20 | the in-place undo follows `UndoStep` |
| `Controller.CommandController.Redo` | pypixelart/command/controller.py:22-26 | the in-place redo follows `RedoStep` |
| `PixelArt.InitialZoomPercent` | pypixelart/py_pixel_art.py:80-97 | the initial zoom, 60000 floor-divided by the larger dimension and then scaled by 80/100, is never negative |
| `PixelArt.InitialZoomStep` | pypixelart/py_pixel_art.py:102-106 | the step is 1 for a zoom from 0 to 19 (where 5% floors to 0), and the zoom's 5% (floor) once the zoom is at least 20 |
| `PixelArt.InitialZoomFitsWindow` | pypixelart/py_pixel_art.py:74-97 | at the initial zoom neither scaled dimension exceeds 480, i.e. 80% of the 600-pixel window |
| `PixelArt.InitialZoomPositive` | pypixelart/py_pixel_art.py:80-97 | the initial zoom is positive exactly when neither dimension exceeds 30000 pixels |
| `PixelArt.Zoomed` | pypixelart/py_pixel_art.py:178-181 | a zoom key keeps the step, and a positive zoom stays positive |
| `PixelArt.ZoomedMovesOneStep` | pypixelart/py_pixel_art.py:173-181 | a zoom key moves the percent by exactly one step and marks the zoom changed when the new percent is positive, and leaves the zoom exactly as it was otherwise |
| `PixelArt.ZoomInThenOut` | pypixelart/py_pixel_art.py:173-181 | zooming in then out returns to the same percent |
| `PixelArt.Wrap` | pypixelart/py_pixel_art.py:184-191 | the wrapped cursor coordinate always lies in [0, size) |
| `PixelArt.WrapSteps` | pypixelart/py_pixel_art.py:184-188 | one step past the last coordinate wraps to 0, one step before 0 wraps to the last, no move keeps it |
| `PixelArt.PyPixelArt.constructor` | pypixelart/py_pixel_art.py:41-121 | the cursor starts at (0, 0) drawing white, symmetry starts as NoSymmetry, both stacks are empty, and the zoom is the initial percent and step, not yet changed |
| `PixelArt.PyPixelArt.SetZoom` | pypixelart/py_pixel_art.py:173-181 | the zoom becomes `Zoomed` of the old zoom; nothing else changes |
| `PixelArt.PyPixelArt.MoveCursor` | pypixelart/py_pixel_art.py:184-192 | the cursor becomes the wrapped sum in each axis and stays on the image |
| `PixelArt.PyPixelArt.SetSymmetry` | pypixelart/py_pixel_art.py:195-198 | symmetry becomes the next mode; the commands already recorded are untouched |
| `PixelArt.PyPixelArt.SetCursorColor` | pypixelart/py_pixel_art.py:224-230 | the drawing colour becomes the selected one |
| `PixelArt.PyPixelArt.DrawPixel` | pypixelart/py_pixel_art.py:232-242 | hands the controller a new command for the cursor position, the cursor colour and the current symmetry |
| `PixelArt.PyPixelArt.ErasePixel` | pypixelart/py_pixel_art.py:244-252 | the same, with the transparent colour (0, 0, 0, 0) |
| `PixelArt.PyPixelArt.Undo` | pypixelart/py_pixel_art.py:254-258 | delegates to the controller's undo |
| `PixelArt.PyPixelArt.Redo` | pypixelart/py_pixel_art.py:260-264 | delegates to the controller's redo |

## Left out

- Rendering and input are not modelled: `run_loop`, `handle_input`, the `draw_*` helpers, `blit_text_to_screen` and `new_text_surface`. They are screen drawing and event polling.
- The cursor-rectangle geometry (pypixelart/py_pixel_art.py:327-333) is not modelled. It uses floating-point division for screen placement only.
- `toggle_grid`, `toggle_color_selection` and `toggle_show_bindings` are not modelled. They only flip flags that choose what is drawn.
- `PixelArt.PyPixelArt.SetCursorColor`: does not model closing the colour-selection menu (`is_drawing_color_selection = False`), a display flag.
- Saving and loading images and all click option handling are not modelled. They are file and library I/O.
- Logging calls are not modelled.
- pypixelart/main.py and cmdpxl/main.py are earlier drafts of the editor and are not part of this model.
- The `Command` protocol (pypixelart/command.py, pypixelart/command/__init__.py) has one implementation. The model uses that implementation directly.
- Commands are values, not shared objects. This has three consequences:
  - The model stores the command returned by execute, with its previous state filled in.
  - Pushing the same command object twice, an aliasing case the editor never produces, is not captured.
  - A command's `image` field is not part of the record. The controller holds the one image every command draws on, and the command methods take it as a parameter.
- `set_at` is only called on in-range pixels in the model (a precondition). pygame's behaviour for an out-of-range write is not relied on, and the core never makes one.
- Images with a zero width or height are excluded (`PixelArt.InitialZoomPercent`, `PixelArt.PyPixelArt.constructor`). The source raises ZeroDivisionError for them: a 0 x 0 image in the initial zoom (pypixelart/py_pixel_art.py:90), and a 0 x h or w x 0 image in `move_cursor` and on the first frame.
- A raised exception ends the editor. The model instead returns the error and lets the caller continue.
- The colour constants are commented out in pypixelart/constants.py:3-8. The model takes `ALPHA` as (0, 0, 0, 0) and `WHITE` as (255, 255, 255, 255).
- The path, window, screen, clock, palette and keybinding fields of `PyPixelArt` are not modelled. They only serve rendering, input or saving.
