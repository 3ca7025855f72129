/** The connect-four board that the move search consumes: an immutable grid of cells
    with the capability set the search uses (`rows`, `cols`, `row`, `col`, `placeable`,
    `place`, `terminal`). Cloning a board is copying the value. */
module Board {

  /** The two player identifiers (`board.PLAYER1`, `board.PLAYER2`). */
  datatype Player = One | Two

  /** The adversary of `p`. */
  function Other(p: Player): (q: Player)
    ensures q != p
  {
    if p == One then Two else One
  }

  /** A cell mark. `Invalid` is the out-of-board sentinel (-1) the evaluator pads
      diagonals with; a well-formed board never stores it. */
  datatype Cell = Invalid | Empty | Disc(owner: Player)

  /** Row 0 is the top row: discs drop towards row `rows - 1`. */
  datatype Board = Board(rows: nat, cols: nat, grid: seq<seq<Cell>>)

  ghost predicate WellFormed(b: Board) {
    && b.rows > 0
    && b.cols > 0
    && |b.grid| == b.rows
    && (forall r :: 0 <= r < b.rows ==> |b.grid[r]| == b.cols)
    && (forall r, c :: 0 <= r < b.rows && 0 <= c < b.cols ==> b.grid[r][c] != Invalid)
  }

  /** The board with no disc on it. */
  function EmptyBoard(rows: nat, cols: nat): (b: Board)
    requires rows > 0 && cols > 0
    ensures WellFormed(b) && b.rows == rows && b.cols == cols
    ensures forall r, c :: 0 <= r < rows && 0 <= c < cols ==> b.grid[r][c] == Empty
  {
    Board(rows, cols, seq(rows, _ => seq(cols, _ => Empty)))
  }

  /** `board.row(r)`: the cells of row `r`, left to right. */
  function Row(b: Board, r: nat): (line: seq<Cell>)
    requires WellFormed(b) && r < b.rows
    ensures |line| == b.cols
  {
    b.grid[r]
  }

  /** `board.col(c)`: the cells of column `c`, top to bottom. */
  function Col(b: Board, c: nat): (line: seq<Cell>)
    requires WellFormed(b) && c < b.cols
    ensures |line| == b.rows
    ensures forall r :: 0 <= r < b.rows ==> line[r] == b.grid[r][c]
  {
    seq(b.rows, r requires 0 <= r < b.rows => b.grid[r][c])
  }

  /** `board.placeable(c)`: column `c` still has an empty cell. */
  predicate Placeable(b: Board, c: int)
    requires WellFormed(b)
  {
    0 <= c < b.cols && exists r | 0 <= r < b.rows :: b.grid[r][c] == Empty
  }

  /** No column accepts a disc. */
  predicate Full(b: Board)
    requires WellFormed(b)
  {
    forall c | 0 <= c < b.cols :: !Placeable(b, c)
  }

  /** The lowest empty row of column `c` at or above row `r`. */
  function DropRow(b: Board, c: nat, r: nat): (row: nat)
    requires WellFormed(b) && c < b.cols && r < b.rows
    requires exists k | 0 <= k <= r :: b.grid[k][c] == Empty
    ensures row <= r && b.grid[row][c] == Empty
    ensures forall k :: row < k <= r ==> b.grid[k][c] != Empty
  {
    if b.grid[r][c] == Empty then r else DropRow(b, c, r - 1)
  }

  /** `board.place(p, c)`: drop a disc of `p` into column `c`; it lands on the lowest
      empty cell of that column and nothing else changes. */
  function Place(b: Board, p: Player, c: nat): (b': Board)
    requires WellFormed(b) && Placeable(b, c)
    ensures WellFormed(b')
    ensures b'.rows == b.rows && b'.cols == b.cols
  {
    var r := DropRow(b, c, b.rows - 1);
    Board(b.rows, b.cols, b.grid[r := b.grid[r][c := Disc(p)]])
  }

  /** The disc lands on the lowest empty cell of column `c` and no other cell changes. */
  lemma PlaceDropsLowest(b: Board, p: Player, c: nat)
    requires WellFormed(b) && Placeable(b, c)
    ensures exists r :: (0 <= r < b.rows && b.grid[r][c] == Empty && Place(b, p, c).grid[r][c] == Disc(p)
      && (forall k :: r < k < b.rows ==> b.grid[k][c] != Empty)
      && (forall i, j :: 0 <= i < b.rows && 0 <= j < b.cols && (i, j) != (r, c) ==>
            Place(b, p, c).grid[i][j] == b.grid[i][j]))
  {
    var r := DropRow(b, c, b.rows - 1);
    assert Place(b, p, c).grid[r][c] == Disc(p);
  }

  /** The cell at (r, c), or the sentinel outside the grid. */
  function At(b: Board, r: int, c: int): Cell {
    if 0 <= r < |b.grid| && 0 <= c < |b.grid[r]| then b.grid[r][c] else Invalid
  }

  /** Four discs of `p` in a line starting at (r, c): rightwards, downwards or along
      either diagonal. */
  predicate FourFrom(b: Board, p: Player, r: int, c: int) {
    var d := Disc(p);
    || (At(b, r, c) == d && At(b, r, c + 1) == d && At(b, r, c + 2) == d && At(b, r, c + 3) == d)
    || (At(b, r, c) == d && At(b, r + 1, c) == d && At(b, r + 2, c) == d && At(b, r + 3, c) == d)
    || (At(b, r, c) == d && At(b, r + 1, c + 1) == d && At(b, r + 2, c + 2) == d && At(b, r + 3, c + 3) == d)
    || (At(b, r, c) == d && At(b, r + 1, c - 1) == d && At(b, r + 2, c - 2) == d && At(b, r + 3, c - 3) == d)
  }

  predicate Won(b: Board, p: Player) {
    exists r, c | 0 <= r < b.rows && 0 <= c < b.cols :: FourFrom(b, p, r, c)
  }

  /** `board.terminal()`: the game is over because a player has four in a line or
      the board is full. */
  predicate Terminal(b: Board)
    requires WellFormed(b)
  {
    Full(b) || Won(b, One) || Won(b, Two)
  }

  /** A game that is not over always offers a move. */
  lemma NotTerminalHasMove(b: Board)
    requires WellFormed(b) && !Terminal(b)
    ensures exists c :: 0 <= c < b.cols && Placeable(b, c)
  {
  }
}
