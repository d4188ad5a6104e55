/**
 * The undo/redo controller (pypixelart/command/controller.py): two stacks of executed
 * commands, the most recent last, acting on one shared image.
 */
module Controller {
  import opened Wrappers
  import opened Surface
  import opened Commands

  /** The image and both stacks, as a value. */
  datatype History = History(grid: Grid, undoStack: seq<DrawPixelAtCursor>, redoStack: seq<DrawPixelAtCursor>)

  /** Every command on either stack has been executed on an image of this size. */
  predicate ValidHistory(h: History) {
    && Rectangular(h.grid)
    && (forall i :: 0 <= i < |h.undoStack| ==> Recorded(Width(h.grid), Height(h.grid), h.undoStack[i]))
    && (forall i :: 0 <= i < |h.redoStack| ==> Recorded(Width(h.grid), Height(h.grid), h.redoStack[i]))
  }

  /**
   * `execute`: runs the command, then empties the redo stack and pushes the executed command.
   * If the command raises, the stacks are untouched (the image may already be changed).
   */
  function ExecuteStep(h: History, command: DrawPixelAtCursor): (r: History)
    requires ValidHistory(h)
    ensures ValidHistory(r)
    ensures ExecuteOn(h.grid, command).result.Err? ==> r.undoStack == h.undoStack && r.redoStack == h.redoStack
    ensures ExecuteOn(h.grid, command).result.Ok? ==>
      && r.redoStack == []
      && |r.undoStack| == |h.undoStack| + 1
      && r.undoStack[..|h.undoStack|] == h.undoStack
      && r.undoStack[|h.undoStack|] == command.(previous := r.undoStack[|h.undoStack|].previous)
  {
    var out := ExecuteOn(h.grid, command);
    match out.result
    case Err(_) => History(out.grid, h.undoStack, h.redoStack)
    case Ok(executed) => History(out.grid, h.undoStack + [executed], [])
  }

  /**
   * `undo`: nothing when the undo stack is empty; otherwise pops its top command, undoes it
   * and pushes that same command onto the redo stack.
   */
  function UndoStep(h: History): (r: History)
    requires ValidHistory(h)
    ensures ValidHistory(r)
    ensures |r.undoStack| + |r.redoStack| == |h.undoStack| + |h.redoStack|
    ensures h.undoStack == [] ==> r == h
    ensures h.undoStack != [] ==>
      && r.undoStack == h.undoStack[..|h.undoStack| - 1]
      && r.redoStack == h.redoStack + [h.undoStack[|h.undoStack| - 1]]
  {
    if h.undoStack == [] then h
    else
      var command := h.undoStack[|h.undoStack| - 1];
      RecordedEntriesWithin(h.grid, command);
      History(UndoOn(h.grid, command.previous.value.Entries()), h.undoStack[..|h.undoStack| - 1], h.redoStack + [command])
  }

  /**
   * `redo`: nothing when the redo stack is empty; otherwise pops its top command, executes it
   * again and pushes it onto the undo stack. Were the re-execution to raise, the popped command
   * would be lost; for a command on the redo stack it never does.
   */
  function RedoStep(h: History): (r: History)
    requires ValidHistory(h)
    ensures ValidHistory(r)
    ensures |r.undoStack| + |r.redoStack| == |h.undoStack| + |h.redoStack|
    ensures h.redoStack == [] ==> r == h
    ensures h.redoStack != [] ==>
      var top := h.redoStack[|h.redoStack| - 1];
      && r.redoStack == h.redoStack[..|h.redoStack| - 1]
      && r.undoStack == h.undoStack + [top.(previous := r.undoStack[|h.undoStack|].previous)]
  {
    if h.redoStack == [] then h
    else
      var command := h.redoStack[|h.redoStack| - 1];
      var rest := h.redoStack[..|h.redoStack| - 1];
      var out := ExecuteOn(h.grid, command);
      match out.result
      case Err(_) => History(out.grid, h.undoStack, rest)
      case Ok(executed) => History(out.grid, h.undoStack + [executed], rest)
  }

  /** Executing a command and undoing it gives back the image and the undo stack; the redo stack holds just that command. */
  lemma {:induction false} ExecuteThenUndo(h: History, command: DrawPixelAtCursor)
    requires ValidHistory(h) && ExecuteOn(h.grid, command).result.Ok?
    ensures UndoStep(ExecuteStep(h, command)) == History(h.grid, h.undoStack, [ExecuteOn(h.grid, command).result.value])
  {
    ExecuteUndoRoundTrip(h.grid, command);
    assert (h.undoStack + [ExecuteOn(h.grid, command).result.value])[..|h.undoStack|] == h.undoStack;
  }

  /** Execute, undo, redo leaves exactly the state that execute alone left. */
  lemma {:induction false} ExecuteUndoRedoStep(h: History, command: DrawPixelAtCursor)
    requires ValidHistory(h) && ExecuteOn(h.grid, command).result.Ok?
    ensures RedoStep(UndoStep(ExecuteStep(h, command))) == ExecuteStep(h, command)
  {
    ExecuteThenUndo(h, command);
    ExecuteUndoRedo(h.grid, command);
  }

  /**
   * A new command after an undo discards the redo chain: a redo then does nothing, and the
   * image is the first command undone, then the second executed.
   */
  lemma {:induction false} RedoChainInvalidated(h: History, first: DrawPixelAtCursor, second: DrawPixelAtCursor)
    requires ValidHistory(h)
    requires ExecuteOn(h.grid, first).result.Ok? && ExecuteOn(h.grid, second).result.Ok?
    ensures var s := ExecuteStep(UndoStep(ExecuteStep(h, first)), second);
      && RedoStep(s) == s
      && s == History(ExecuteOn(h.grid, second).grid, h.undoStack + [ExecuteOn(h.grid, second).result.value], [])
  {
    ExecuteThenUndo(h, first);
  }

  /** Executes the commands one after another. */
  function ExecuteAll(h: History, commands: seq<DrawPixelAtCursor>): (r: History)
    requires ValidHistory(h)
    ensures ValidHistory(r)
    decreases |commands|
  {
    if commands == [] then h else ExecuteAll(ExecuteStep(h, commands[0]), commands[1..])
  }

  /** Every one of the commands, run in turn, executes without raising. */
  predicate AllExecute(h: History, commands: seq<DrawPixelAtCursor>)
    requires ValidHistory(h)
    decreases |commands|
  {
    commands == [] ||
    (ExecuteOn(h.grid, commands[0]).result.Ok? && AllExecute(ExecuteStep(h, commands[0]), commands[1..]))
  }

  /** Undoes n times. */
  function UndoTimes(h: History, n: nat): (r: History)
    requires ValidHistory(h)
    ensures ValidHistory(r)
    ensures |r.undoStack| + |r.redoStack| == |h.undoStack| + |h.redoStack|
    ensures |r.undoStack| == if n <= |h.undoStack| then |h.undoStack| - n else 0
  {
    if n == 0 then h else UndoStep(UndoTimes(h, n - 1))
  }

  /** What an undo does to the image and the undo stack does not depend on the redo stack. */
  lemma UndoIgnoresRedo(h: History, k: History)
    requires ValidHistory(h) && ValidHistory(k)
    requires h.grid == k.grid && h.undoStack == k.undoStack
    ensures UndoStep(h).grid == UndoStep(k).grid && UndoStep(h).undoStack == UndoStep(k).undoStack
  {
  }

  /**
   * Undoing once from any history that has the image and undo stack an execute left gives
   * back the image and undo stack from before that execute.
   */
  lemma {:induction false} UndoAfterStep(h: History, command: DrawPixelAtCursor, k: History)
    requires ValidHistory(h) && ExecuteOn(h.grid, command).result.Ok? && ValidHistory(k)
    requires k.grid == ExecuteStep(h, command).grid && k.undoStack == ExecuteStep(h, command).undoStack
    ensures UndoStep(k).grid == h.grid && UndoStep(k).undoStack == h.undoStack
  {
    ExecuteThenUndo(h, command);
    UndoIgnoresRedo(k, ExecuteStep(h, command));
  }

  /** N executes followed by N undos restore the image pixel for pixel, and the undo stack with it. */
  lemma {:induction false} ExecuteAllUndoAll(h: History, commands: seq<DrawPixelAtCursor>)
    requires ValidHistory(h) && AllExecute(h, commands)
    ensures UndoTimes(ExecuteAll(h, commands), |commands|).grid == h.grid
    ensures UndoTimes(ExecuteAll(h, commands), |commands|).undoStack == h.undoStack
    decreases |commands|
  {
    if commands != [] {
      var first := ExecuteStep(h, commands[0]);
      var rest := commands[1..];
      ExecuteAllUndoAll(first, rest);
      var after := ExecuteAll(first, rest);
      var back := UndoTimes(after, |rest|);
      assert ExecuteAll(h, commands) == after;
      // n + 1 undos are n undos (back to `first`'s image and undo stack) and one more.
      assert UndoTimes(after, |commands|) == UndoStep(back);
      UndoAfterStep(h, commands[0], back);
    }
  }

  /** The controller: the shared image and both stacks, changed in place. */
  class CommandController {
    /** The image every command on the stacks draws on. */
    const image: Canvas
    var undoStack: seq<DrawPixelAtCursor>
    var redoStack: seq<DrawPixelAtCursor>

    ghost function State(): History
      reads this, image.pixels
    {
      History(image.Contents(), undoStack, redoStack)
    }

    ghost predicate Valid()
      reads this, image.pixels
    {
      ValidHistory(State())
    }

    /** Both stacks start empty. */
    constructor (image: Canvas)
      ensures this.image == image && undoStack == [] && redoStack == []
      ensures Valid()
    {
      this.image := image;
      undoStack := [];
      redoStack := [];
    }

    method Execute(command: DrawPixelAtCursor) returns (r: Result<DrawPixelAtCursor, Error>)
      requires Valid()
      modifies this, image.pixels
      ensures Valid()
      ensures State() == ExecuteStep(old(State()), command)
      ensures r == ExecuteOn(old(image.Contents()), command).result
    {
      r := Commands.Execute(image, command);
      if r.Err? {
        return;
      }
      redoStack := [];
      undoStack := undoStack + [r.value];
    }

    method Undo()
      requires Valid()
      modifies this, image.pixels
      ensures Valid()
      ensures State() == UndoStep(old(State()))
    {
      if undoStack != [] {
        var command := undoStack[|undoStack| - 1];
        undoStack := undoStack[..|undoStack| - 1];
        RecordedEntriesWithin(image.Contents(), command);
        Commands.Undo(image, command);
        redoStack := redoStack + [command];
      }
    }

    method Redo()
      requires Valid()
      modifies this, image.pixels
      ensures Valid()
      ensures State() == RedoStep(old(State()))
    {
      if redoStack != [] {
        var command := redoStack[|redoStack| - 1];
        redoStack := redoStack[..|redoStack| - 1];
        var redone := Commands.Redo(image, command);
        if redone.Ok? {
          undoStack := undoStack + [redone.value];
        }
      }
    }
  }
}
