/** The board record (`betris_board_t`), the engine's status codes, and the
    commit-or-reject discipline every move shares. */
module Board {
  import opened Geometry
  import opened Playfield

  /** The engine's return codes (`betris_error_t`). */
  datatype Status = Success | NullBoard | InactiveTetromino | Collision

  /** The board: settled grid `pf`, the falling piece's cells `fpos`, its
      rotation state `frot` and colour `fcol` (`Blank` when no piece is
      falling), the rows touched by the last lock `lrowList`, and the flag
      `lrowUpdated` that stays set until those rows are consumed. */
  datatype Board = Board(
    pf: Grid,
    fpos: Cells,
    frot: int,
    fcol: Colour,
    lrowList: seq<int>,
    lrowUpdated: bool)

  /** A board pointer as the engine receives it; `Null` is the null pointer. */
  datatype BoardRef = Null | Ref(board: Board)

  /** What an operation returns, together with the board as it leaves it. */
  datatype Outcome = Outcome(status: Status, after: BoardRef)

  /** The board's shape: the grid has the configured size, the rotation state
      indexes the rotation table, and the row record has four slots. */
  predicate WellFormed(g: Rules, b: Board) {
    GridShape(g, b.pf) && 0 <= b.frot < 4 && |b.lrowList| == 4
  }

  predicate RefWellFormed(g: Rules, ref: BoardRef) {
    ref.Ref? ==> WellFormed(g, ref.board)
  }

  /** A piece is falling on this board. */
  predicate Active(ref: BoardRef) {
    ref.Ref? && ref.board.fcol != Blank
  }

  /** The falling-piece invariant: while a piece is falling, its cells are
      an admissible placement on the grid. */
  predicate Live(g: Rules, b: Board)
    requires WellFormed(g, b)
  {
    b.fcol != Blank ==> Admissible(g, b.pf, b.fpos)
  }

  predicate RefLive(g: Rules, ref: BoardRef)
    requires RefWellFormed(g, ref)
  {
    ref.Ref? ==> Live(g, ref.board)
  }

  /** The two guards every move runs before it reads anything else: a null
      board reports `NullBoard`, a board with no falling piece reports
      `InactiveTetromino`, and neither changes the board. */
  predicate Guarded(ref: BoardRef, r: Outcome) {
    && (ref.Null? ==> r == Outcome(NullBoard, Null))
    && (ref.Ref? && ref.board.fcol == Blank ==> r == Outcome(InactiveTetromino, ref))
  }

  /** Commit or reject: the move succeeds exactly when the candidate cells
      are admissible, and then only the piece's cells and rotation state
      change; otherwise it reports `Collision` and the board is untouched. */
  predicate CommitsOrRejects(g: Rules, b: Board, cand: Cells, rot: int, r: Outcome)
    requires GridShape(g, b.pf)
  {
    && r.after.Ref?
    && (r.status == Success <==> Admissible(g, b.pf, cand))
    && (r.status == Success ==> r.after.board == b.(fpos := cand, frot := rot))
    && (r.status != Success ==> r.status == Collision && r.after.board == b)
  }

  /** The tail every move shares: ask the oracle about the candidate cells,
      then copy them into `fpos` (and set the new rotation state) or report
      the collision. */
  function Attempt(g: Rules, b: Board, cand: Cells, rot: int): (r: Outcome)
    requires GridShape(g, b.pf)
    ensures CommitsOrRejects(g, b, cand, rot, r)
  {
    if CollisionCheck(g, b.pf, cand) then Outcome(Success, Ref(b.(fpos := cand, frot := rot)))
    else Outcome(Collision, Ref(b))
  }
}
