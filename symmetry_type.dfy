/** The symmetry mode: whether and how an edit is mirrored (pypixelart/symmetry_type.py). */
module SymmetryTypes {
  import opened Wrappers

  /** Edits are not mirrored, mirrored top/bottom (Horizontal), or mirrored left/right (Vertical). */
  datatype SymmetryType = NoSymmetry | Horizontal | Vertical

  /** Every mode, listed in the order of its integer value. */
  const AllModes: seq<SymmetryType> := [NoSymmetry, Horizontal, Vertical]

  /** The integer value the enum assigns to a mode: its index in AllModes. */
  function Value(s: SymmetryType): (v: nat)
    ensures v < |AllModes| && AllModes[v] == s
  {
    match s
    case NoSymmetry => 0
    case Horizontal => 1
    case Vertical => 2
  }

  /** `SymmetryType(v)`: the mode whose value is v, or None where the enum would raise. */
  function FromValue(v: int): (r: Option<SymmetryType>)
    ensures r.Some? <==> 0 <= v < |AllModes|
    ensures r.Some? ==> Value(r.value) == v
  {
    if 0 <= v < |AllModes| then Some(AllModes[v]) else None
  }

  /** The mode the symmetry key switches to: the value plus one, modulo the number of modes. */
  function Next(s: SymmetryType): (r: SymmetryType)
    ensures Value(r) == (Value(s) + 1) % |AllModes|
  {
    FromValue((Value(s) + 1) % |AllModes|).value
  }

  /** Whether edits made under this mode are mirrored. */
  predicate IsMirrored(s: SymmetryType) {
    s != NoSymmetry
  }

  /** There are exactly three modes, their values are 0, 1, 2, and no two share a value. */
  lemma ExactlyThreeModes(s: SymmetryType, t: SymmetryType)
    ensures |AllModes| == 3 && s in AllModes
    ensures Value(NoSymmetry) == 0 && Value(Horizontal) == 1 && Value(Vertical) == 2
    ensures Value(s) == Value(t) ==> s == t
    ensures IsMirrored(s) <==> s == Horizontal || s == Vertical
  {
  }

  /** Pressing the symmetry key cycles NoSymmetry -> Horizontal -> Vertical -> NoSymmetry. */
  lemma NextCycles(s: SymmetryType)
    ensures Next(NoSymmetry) == Horizontal
    ensures Next(Horizontal) == Vertical
    ensures Next(Vertical) == NoSymmetry
    ensures Next(s) != s && Next(Next(Next(s))) == s
  {
    assert AllModes[0] == NoSymmetry && AllModes[1] == Horizontal && AllModes[2] == Vertical;
  }
}
