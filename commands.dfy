/**
 * The reversible draw command (pypixelart/command/commands.py): it draws with the symmetric
 * write, records the colours it overwrote, and writes them back on undo.
 */
module Commands {
  import opened Wrappers
  import opened Surface
  import opened SymmetryTypes
  import opened Utils

  /**
   * What a draw overwrote: the primary pixel with its colour before the draw, and the
   * mirror pixel with the colour the symmetric write read there (None without symmetry).
   */
  datatype PreviousPosAndColors = PreviousPosAndColors(primary: PixelRecord, symmetric: Option<PixelRecord>)
  {
    /** The entries in the order undo writes them back. */
    function Entries(): seq<Option<PixelRecord>> {
      [Some(primary), symmetric]
    }
  }

  /**
   * A draw of newColor at position under a symmetry mode, all three fixed when the command
   * is built; previous is None until the command has been executed.
   */
  datatype DrawPixelAtCursor = DrawPixelAtCursor(
    position: Position,
    newColor: Color,
    symmetryType: SymmetryType,
    previous: Option<PreviousPosAndColors>)

  /** A command as the editor builds it, not yet executed. */
  function NewCommand(position: Position, color: Color, mode: SymmetryType): (c: DrawPixelAtCursor)
    ensures c.previous.None?
    ensures c.position == position && c.newColor == color && c.symmetryType == mode
  {
    DrawPixelAtCursor(position, color, mode, None)
  }

  /** Whether executing the command in a width x height image completes: its pixel and its mirror are inside. */
  predicate Executable(width: nat, height: nat, command: DrawPixelAtCursor) {
    && Within(width, height, command.position)
    && match MirrorPosition(width, height, command.position, command.symmetryType)
       case None => true
       case Some(m) => Within(width, height, m)
  }

  /** The command has been executed in a width x height image and its entries name the pixels it drew. */
  predicate Recorded(width: nat, height: nat, command: DrawPixelAtCursor) {
    && Executable(width, height, command)
    && command.previous.Some?
    && command.previous.value.primary.pos == command.position
    && match command.previous.value.symmetric
       case None => !IsMirrored(command.symmetryType)
       case Some(rec) => MirrorPosition(width, height, command.position, command.symmetryType) == Some(rec.pos)
  }

  /** Every recorded entry names a pixel inside the image. */
  predicate EntriesWithin(g: Grid, entries: seq<Option<PixelRecord>>) {
    forall i :: 0 <= i < |entries| && entries[i].Some? ==> InBounds(g, entries[i].value.pos)
  }

  /** The image after an execute, and the executed command (with its previous state) or the error raised. */
  datatype ExecuteOutcome = ExecuteOutcome(grid: Grid, result: Result<DrawPixelAtCursor, Error>)

  /**
   * `execute`: reads the colour at the command's position, performs the symmetric write and
   * records both entries. A failing read raises before anything is written; a failing mirror
   * read raises after the primary pixel was written. Either way the command keeps its old state.
   */
  function ExecuteOn(g: Grid, command: DrawPixelAtCursor): (out: ExecuteOutcome)
    requires Rectangular(g)
    ensures Rectangular(out.grid) && Width(out.grid) == Width(g) && Height(out.grid) == Height(g)
    ensures out.result.Ok? <==> Executable(Width(g), Height(g), command)
    ensures out.result.Ok? ==> Recorded(Width(g), Height(g), out.result.value)
    ensures out.result.Ok? ==> EntriesWithin(out.grid, out.result.value.previous.value.Entries())
    ensures out.result.Ok? ==> out.result.value == command.(previous := out.result.value.previous)
    ensures !InBounds(g, command.position) ==>
      out == ExecuteOutcome(g, Err(IndexOutOfRange(command.position)))
    ensures InBounds(g, command.position) ==>
      out.grid == SymmetricWrite(g, command.position, command.newColor, command.symmetryType).grid
    ensures out.result.Ok? ==>
      && out.result.value.previous.value.primary == PixelRecord(command.position, g[command.position.0][command.position.1])
      && Ok(out.result.value.previous.value.symmetric)
         == SymmetricWrite(g, command.position, command.newColor, command.symmetryType).result
  {
    match PixelAt(g, command.position)
    case Err(e) => ExecuteOutcome(g, Err(e))
    case Ok(c) =>
      var drawn := SymmetricWrite(g, command.position, command.newColor, command.symmetryType);
      match drawn.result
      case Err(e) => ExecuteOutcome(drawn.grid, Err(e))
      case Ok(symmetric) =>
        var previous := PreviousPosAndColors(PixelRecord(command.position, c), symmetric);
        ExecuteOutcome(drawn.grid, Ok(command.(previous := Some(previous))))
  }

  /**
   * After a successful execute exactly the command's pixel and, under symmetry, its mirror
   * hold the new colour; every other pixel keeps its colour.
   */
  lemma {:induction false} ExecuteDraws(g: Grid, command: DrawPixelAtCursor)
    requires Rectangular(g) && ExecuteOn(g, command).result.Ok?
    ensures forall q :: InBounds(g, q) ==>
      PixelAt(ExecuteOn(g, command).grid, q) ==
        if q == command.position || MirrorPosition(Width(g), Height(g), command.position, command.symmetryType) == Some(q)
        then Ok(command.newColor) else PixelAt(g, q)
  {
    var p := command.position;
    match MirrorPosition(Width(g), Height(g), p, command.symmetryType)
    case None =>
      WriteWithoutSymmetry(g, p, command.newColor);
    case Some(m) =>
      WriteMirrored(g, p, command.newColor, command.symmetryType, m);
  }

  /** Writes one recorded entry back; a None entry is skipped. */
  function WriteBack(g: Grid, entry: Option<PixelRecord>): (r: Grid)
    requires Rectangular(g) && (entry.Some? ==> InBounds(g, entry.value.pos))
    ensures Rectangular(r) && Width(r) == Width(g) && Height(r) == Height(g)
    ensures forall q :: InBounds(g, q) ==>
      PixelAt(r, q) == if entry.Some? && q == entry.value.pos then Ok(entry.value.color) else PixelAt(g, q)
  {
    match entry
    case None => g
    case Some(rec) => WithPixel(g, rec.pos, rec.color)
  }

  /** `undo`: writes the entries back in order, first to last. */
  function UndoOn(g: Grid, entries: seq<Option<PixelRecord>>): (r: Grid)
    requires Rectangular(g) && EntriesWithin(g, entries)
    ensures Rectangular(r) && Width(r) == Width(g) && Height(r) == Height(g)
    decreases |entries|
  {
    if entries == [] then g
    else WriteBack(UndoOn(g, entries[..|entries| - 1]), entries[|entries| - 1])
  }

  /** Undoing two entries writes the first back, then the second. */
  lemma UndoTwo(g: Grid, first: Option<PixelRecord>, second: Option<PixelRecord>)
    requires Rectangular(g)
    requires first.Some? ==> InBounds(g, first.value.pos)
    requires second.Some? ==> InBounds(g, second.value.pos)
    ensures EntriesWithin(g, [first, second])
    ensures UndoOn(g, [first, second]) == WriteBack(WriteBack(g, first), second)
  {
    var entries := [first, second];
    assert entries[..1] == [first] && [first][..0] == [];
    assert UndoOn(g, [first]) == WriteBack(UndoOn(g, []), first);
    assert UndoOn(g, entries) == WriteBack(UndoOn(g, [first]), second);
  }

  /** A recorded command's entries lie inside any image of the size it was recorded for. */
  lemma RecordedEntriesWithin(g: Grid, command: DrawPixelAtCursor)
    requires Rectangular(g) && Recorded(Width(g), Height(g), command)
    ensures EntriesWithin(g, command.previous.value.Entries())
  {
  }

  /**
   * Executing then undoing restores the image exactly: the first entry puts back the primary
   * pixel's colour, the second the mirror's, and the two never name the same pixel.
   */
  lemma {:induction false} ExecuteUndoRoundTrip(g: Grid, command: DrawPixelAtCursor)
    requires Rectangular(g) && ExecuteOn(g, command).result.Ok?
    ensures var out := ExecuteOn(g, command);
      UndoOn(out.grid, out.result.value.previous.value.Entries()) == g
  {
    var out := ExecuteOn(g, command);
    var p, color := command.position, command.newColor;
    var previous := out.result.value.previous.value;
    RecordedEntriesWithin(out.grid, out.result.value);
    UndoTwo(out.grid, Some(previous.primary), previous.symmetric);
    var restored := UndoOn(out.grid, previous.Entries());
    assert previous.primary == PixelRecord(p, g[p.0][p.1]);
    match MirrorPosition(Width(g), Height(g), p, command.symmetryType)
    case None =>
      WriteWithoutSymmetry(g, p, color);
      assert previous.symmetric.None?;
      WithPixelTwice(g, p, color, g[p.0][p.1]);
      WithPixelUnchanged(g, p);
    case Some(m) =>
      WriteMirrored(g, p, color, command.symmetryType, m);
      assert previous.symmetric == Some(PixelRecord(m, g[m.0][m.1]));
      forall q | InBounds(g, q)
        ensures PixelAt(restored, q) == PixelAt(g, q)
      {
      }
      SameGrid(restored, g);
  }

  /** A command's previous state does not influence what executing it does. */
  lemma ExecuteIgnoresPrevious(g: Grid, command: DrawPixelAtCursor, previous: Option<PreviousPosAndColors>)
    requires Rectangular(g)
    ensures ExecuteOn(g, command.(previous := previous)) == ExecuteOn(g, command)
  {
  }

  /**
   * `redo` after `undo` re-executes on the restored image: it produces the image the first
   * execute produced and records the same previous state again.
   */
  lemma {:induction false} ExecuteUndoRedo(g: Grid, command: DrawPixelAtCursor)
    requires Rectangular(g) && ExecuteOn(g, command).result.Ok?
    ensures var out := ExecuteOn(g, command);
      ExecuteOn(UndoOn(out.grid, out.result.value.previous.value.Entries()), out.result.value) == out
  {
    var out := ExecuteOn(g, command);
    ExecuteUndoRoundTrip(g, command);
    RecordedEntriesWithin(out.grid, out.result.value);
    ExecuteIgnoresPrevious(g, command, out.result.value.previous);
  }

  /** `execute` on the shared image: records the primary colour, draws, stores both entries. */
  method Execute(image: Canvas, command: DrawPixelAtCursor) returns (r: Result<DrawPixelAtCursor, Error>)
    modifies image.pixels
    ensures image.Contents() == ExecuteOn(old(image.Contents()), command).grid
    ensures r == ExecuteOn(old(image.Contents()), command).result
  {
    var previousColor := image.GetAt(command.position);
    if previousColor.Err? {
      return Err(previousColor.error);
    }
    var symmetricPrevious := DrawPixel(image, command.position, command.newColor, command.symmetryType);
    if symmetricPrevious.Err? {
      return Err(symmetricPrevious.error);
    }
    var previous := PreviousPosAndColors(PixelRecord(command.position, previousColor.value), symmetricPrevious.value);
    r := Ok(command.(previous := Some(previous)));
  }

  /** `undo`: writes each recorded entry back in order, skipping a None entry. */
  method Undo(image: Canvas, command: DrawPixelAtCursor)
    requires command.previous.Some?
    requires EntriesWithin(image.Contents(), command.previous.value.Entries())
    modifies image.pixels
    ensures image.Contents() == UndoOn(old(image.Contents()), command.previous.value.Entries())
  {
    var entries := command.previous.value.Entries();
    var i := 0;
    while i < |entries|
      invariant 0 <= i <= |entries|
      invariant Rectangular(image.Contents())
      invariant Width(image.Contents()) == Width(old(image.Contents()))
      invariant Height(image.Contents()) == Height(old(image.Contents()))
      invariant image.Contents() == UndoOn(old(image.Contents()), entries[..i])
    {
      var entry := entries[i];
      if entry.Some? {
        image.SetAt(entry.value.pos, entry.value.color);
      }
      assert entries[..i + 1][..i] == entries[..i];
      i := i + 1;
    }
    assert entries[..i] == entries;
  }

  /** `redo` is `execute` again. */
  method Redo(image: Canvas, command: DrawPixelAtCursor) returns (r: Result<DrawPixelAtCursor, Error>)
    modifies image.pixels
    ensures image.Contents() == ExecuteOn(old(image.Contents()), command).grid
    ensures r == ExecuteOn(old(image.Contents()), command).result
  {
    r := Execute(image, command);
  }
}
