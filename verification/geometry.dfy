/** Piece geometry of the falling-block engine: cell colours, coordinates, the
    four-cell tetromino, the engine's compile-time constants, and the
    translations that every move, rotation and drop is built from. */
module Geometry {

  /** The content of a playfield cell, and the colour of the falling piece.
      `Blank` is both the empty cell and "no piece is falling". */
  datatype Colour = Blank | I | J | L | O | S | T | Z

  /** One cell: `h` is the row counted up from the floor (row 0), `w` the
      column counted from the left wall (column 0). */
  datatype Coord = Coord(h: int, w: int)

  /** The four cells of a tetromino. */
  type Cells = s: seq<Coord> | |s| == 4 witness [Coord(0, 0), Coord(0, 0), Coord(0, 0), Coord(0, 0)]

  /** The engine's compile-time constants, left abstract: the playfield is
      `width` columns by `height` visible rows plus `buffer` rows above them,
      and `delta(colour, rot, i)` is the offset a clockwise rotation from
      rotation state `rot` adds to cell `i` of a piece of that colour. */
  datatype Rules = Rules(width: int, height: int, buffer: int, delta: (Colour, int, int) -> Coord)
  {
    /** Number of rows the grid holds, visible and buffer together. */
    function Rows(): int {
      height + buffer
    }

    /** The cell lies inside the grid. */
    predicate InField(c: Coord) {
      0 <= c.h < Rows() && 0 <= c.w < width
    }
  }

  /** All four cells lie inside the grid. */
  predicate AllInField(g: Rules, t: Cells) {
    forall i :: 0 <= i < 4 ==> g.InField(t[i])
  }

  /** Every cell moved by `dh` rows and `dw` columns. */
  function Translate(t: Cells, dh: int, dw: int): Cells {
    seq(4, i requires 0 <= i < 4 => Coord(t[i].h + dh, t[i].w + dw))
  }

  /** The piece moved `k` rows down (up when `k` is negative). */
  function Lower(t: Cells, k: int): Cells {
    Translate(t, -k, 0)
  }

  /** Candidate cells of a clockwise rotation from state `rot`. */
  function AddDeltas(g: Rules, t: Cells, col: Colour, rot: int): Cells {
    seq(4, i requires 0 <= i < 4 =>
      Coord(t[i].h + g.delta(col, rot, i).h, t[i].w + g.delta(col, rot, i).w))
  }

  /** Candidate cells of a counter-clockwise rotation into state `rot`:
      the clockwise deltas of `rot` taken away again. */
  function SubDeltas(g: Rules, t: Cells, col: Colour, rot: int): Cells {
    seq(4, i requires 0 <= i < 4 =>
      Coord(t[i].h - g.delta(col, rot, i).h, t[i].w - g.delta(col, rot, i).w))
  }

  /** The four cells are pairwise different. */
  predicate Distinct(t: Cells) {
    forall i, j :: 0 <= i < j < 4 ==> t[i] != t[j]
  }

  /** The `MOD4` macro, which masks with `0b0011`. On two's-complement
      integers that mask is the Euclidean remainder by 4, also for the
      negative value `frot - 1` takes when `frot` is 0. */
  function Mod4(x: int): (r: int)
    ensures 0 <= r < 4
    ensures 0 <= x < 4 ==> r == x
    ensures (x - r) % 4 == 0
  {
    x % 4
  }

  /** Stepping the rotation state back undoes stepping it forward, and the
      other way round, for every state in [0, 3]. */
  lemma Mod4StepInverse(x: int)
    requires 0 <= x < 4
    ensures Mod4(Mod4(x + 1) - 1) == x
    ensures Mod4(Mod4(x - 1) + 1) == x
  {
    if x == 0 {
      assert Mod4(x - 1) == 3;
    } else if x == 3 {
      assert Mod4(x + 1) == 0;
    }
  }

  /** Translations compose by adding their offsets. */
  lemma TranslateCompose(t: Cells, a: int, b: int, c: int, d: int)
    ensures Translate(Translate(t, a, b), c, d) == Translate(t, a + c, b + d)
  {
  }

  /** Moving down `a` rows and then `b` rows is moving down `a + b` rows. */
  lemma LowerCompose(t: Cells, a: int, b: int)
    ensures Lower(Lower(t, a), b) == Lower(t, a + b)
  {
    TranslateCompose(t, -a, 0, -b, 0);
  }

  /** Moving by zero rows leaves the piece where it is. */
  lemma LowerZero(t: Cells)
    ensures Lower(t, 0) == t
  {
    assert forall i :: 0 <= i < 4 ==> Lower(t, 0)[i] == t[i];
  }

  /** Taking the clockwise deltas away again restores the cells, and so does
      adding them back after taking them away. */
  lemma DeltasCancel(g: Rules, t: Cells, col: Colour, rot: int)
    ensures SubDeltas(g, AddDeltas(g, t, col, rot), col, rot) == t
    ensures AddDeltas(g, SubDeltas(g, t, col, rot), col, rot) == t
  {
    assert forall i :: 0 <= i < 4 ==> SubDeltas(g, AddDeltas(g, t, col, rot), col, rot)[i] == t[i];
    assert forall i :: 0 <= i < 4 ==> AddDeltas(g, SubDeltas(g, t, col, rot), col, rot)[i] == t[i];
  }

  /** A translation keeps the piece's four cells apart exactly when they
      were apart before: shifts and drops never merge two cells. */
  lemma TranslateKeepsDistinct(t: Cells, dh: int, dw: int)
    ensures Distinct(Translate(t, dh, dw)) <==> Distinct(t)
  {
    var u := Translate(t, dh, dw);
    forall i, j | 0 <= i < j < 4
      ensures u[i] == u[j] <==> t[i] == t[j]
    {
      assert u[i] == Coord(t[i].h + dh, t[i].w + dw);
      assert u[j] == Coord(t[j].h + dh, t[j].w + dw);
    }
  }
}
