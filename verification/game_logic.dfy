/** The board model of the tic-tac-toe engine: the fixed table of winning
    lines, winner / tie / game-over detection, move application and the
    enumeration of empty cells (js/gameLogic.js). */
module GameLogic {

  import opened Options

  /** The two marks a player can put on the board ("X" and "O"). */
  datatype Player = X | O

  /** A cell is empty ("") or holds a player's mark. */
  datatype Cell = Empty | Mark(player: Player)

  /** A cell index, 0..8, read row by row. */
  type Index = i: nat | i < 9

  /** The board is always nine cells long. */
  type Board = b: seq<Cell> | |b| == 9
    witness [Empty, Empty, Empty, Empty, Empty, Empty, Empty, Empty, Empty]

  /** One winning combination: three cell indices. */
  datatype Line = Line(a: Index, b: Index, c: Index)

  /** The 8 winning combinations in table order: rows, columns, diagonals. */
  const WinningCombinations: seq<Line> := [
    Line(0, 1, 2), Line(3, 4, 5), Line(6, 7, 8),
    Line(0, 3, 6), Line(1, 4, 7), Line(2, 5, 8),
    Line(0, 4, 8), Line(2, 4, 6)
  ]

  /** Every winning combination names three different cells. */
  lemma LineCellsDistinct(i: int)
    requires 0 <= i < |WinningCombinations|
    ensures WinningCombinations[i].a != WinningCombinations[i].b
    ensures WinningCombinations[i].a != WinningCombinations[i].c
    ensures WinningCombinations[i].b != WinningCombinations[i].c
  {
  }

  /** The three cells of `line` are non-empty and equal. */
  predicate Complete(board: Board, line: Line) {
    board[line.a] != Empty && board[line.a] == board[line.b] && board[line.a] == board[line.c]
  }

  /** Line number `i` of the table is complete and no earlier line is. */
  predicate FirstCompleteAt(board: Board, i: int) {
    && 0 <= i < |WinningCombinations|
    && Complete(board, WinningCombinations[i])
    && forall j :: 0 <= j < i ==> !Complete(board, WinningCombinations[j])
  }

  /** Some line of the table is complete. */
  predicate HasCompleteLine(board: Board) {
    exists i :: 0 <= i < |WinningCombinations| && Complete(board, WinningCombinations[i])
  }

  /** The owner of a complete line. */
  function Owner(board: Board, line: Line): Player
    requires Complete(board, line)
  {
    board[line.a].player
  }

  /** Every cell is occupied. */
  predicate IsFull(board: Board) {
    forall i :: 0 <= i < |board| ==> board[i] != Empty
  }

  /** The table scan of checkWinner, from line `k` on. */
  function WinnerFrom(board: Board, k: nat): Option<Player>
    requires k <= |WinningCombinations|
    decreases |WinningCombinations| - k
  {
    if k == |WinningCombinations| then None
    else
      var line := WinningCombinations[k];
      if Complete(board, line) then Some(Owner(board, line))
      else WinnerFrom(board, k + 1)
  }

  /** The scan from line `k` finds nothing exactly when no line from `k` on is
      complete, and otherwise reports the owner of the first complete one. */
  lemma {:induction false} WinnerFromScan(board: Board, k: nat)
    requires k <= |WinningCombinations|
    ensures WinnerFrom(board, k).None? <==>
              forall i :: k <= i < |WinningCombinations| ==> !Complete(board, WinningCombinations[i])
    ensures WinnerFrom(board, k).Some? ==>
              exists i :: k <= i < |WinningCombinations|
                          && Complete(board, WinningCombinations[i])
                          && Owner(board, WinningCombinations[i]) == WinnerFrom(board, k).value
                          && forall j :: k <= j < i ==> !Complete(board, WinningCombinations[j])
    decreases |WinningCombinations| - k
  {
    if k < |WinningCombinations| && !Complete(board, WinningCombinations[k]) {
      WinnerFromScan(board, k + 1);
    }
  }

  /** checkWinner: the mark on the first complete line in table order, if any. */
  function CheckWinner(board: Board): Option<Player> {
    WinnerFrom(board, 0)
  }

  /** checkWinner reports a mark only when some line is complete, and then
      it is the owner of the first complete line in table order. */
  lemma CheckWinnerIsFirstLineOwner(board: Board)
    ensures CheckWinner(board).None? <==> !HasCompleteLine(board)
    ensures CheckWinner(board).Some? ==>
              exists i :: FirstCompleteAt(board, i) && Owner(board, WinningCombinations[i]) == CheckWinner(board).value
  {
    WinnerFromScan(board, 0);
  }

  /** The table scan of getWinningCombination, from line `k` on. */
  function CombinationFrom(board: Board, k: nat): Option<Line>
    requires k <= |WinningCombinations|
    decreases |WinningCombinations| - k
  {
    if k == |WinningCombinations| then None
    else
      var line := WinningCombinations[k];
      if Complete(board, line) then Some(line)
      else CombinationFrom(board, k + 1)
  }

  /** The scan from line `k` finds nothing exactly when no line from `k` on is
      complete, and otherwise returns the first complete one. */
  lemma {:induction false} CombinationFromScan(board: Board, k: nat)
    requires k <= |WinningCombinations|
    ensures CombinationFrom(board, k).None? <==>
              forall i :: k <= i < |WinningCombinations| ==> !Complete(board, WinningCombinations[i])
    ensures CombinationFrom(board, k).Some? ==>
              exists i :: k <= i < |WinningCombinations|
                          && CombinationFrom(board, k).value == WinningCombinations[i]
                          && Complete(board, WinningCombinations[i])
                          && forall j :: k <= j < i ==> !Complete(board, WinningCombinations[j])
    decreases |WinningCombinations| - k
  {
    if k < |WinningCombinations| && !Complete(board, WinningCombinations[k]) {
      CombinationFromScan(board, k + 1);
    }
  }

  /** getWinningCombination: the first complete line in table order, if any. */
  function GetWinningCombination(board: Board): (r: Option<Line>)
    ensures r.None? <==> !HasCompleteLine(board)
    ensures r.Some? ==> exists i :: FirstCompleteAt(board, i) && r.value == WinningCombinations[i]
  {
    CombinationFromScan(board, 0);
    CombinationFrom(board, 0)
  }

  /** The first complete line is unique. */
  lemma FirstCompleteUnique(board: Board, i: int, j: int)
    requires FirstCompleteAt(board, i) && FirstCompleteAt(board, j)
    ensures i == j
  {
  }

  /** checkWinner and getWinningCombination agree: a line is reported exactly
      when there is a winner, and the winner is the owner of that line. */
  lemma WinnerOwnsWinningCombination(board: Board)
    ensures GetWinningCombination(board).Some? <==> CheckWinner(board).Some?
    ensures GetWinningCombination(board).Some? ==>
              Complete(board, GetWinningCombination(board).value)
              && CheckWinner(board).value == Owner(board, GetWinningCombination(board).value)
  {
    var w := CheckWinner(board);
    var c := GetWinningCombination(board);
    CheckWinnerIsFirstLineOwner(board);
    if c.Some? {
      var i :| FirstCompleteAt(board, i) && c.value == WinningCombinations[i];
      var j :| FirstCompleteAt(board, j) && Owner(board, WinningCombinations[j]) == w.value;
      FirstCompleteUnique(board, i, j);
    }
  }

  /** A line that one new mark completes runs through that cell and is owned
      by the mark's player. */
  lemma NewLineThroughMark(board: Board, index: Index, player: Player, i: int)
    requires board[index] == Empty
    requires 0 <= i < |WinningCombinations|
    requires Complete(board[index := Mark(player)], WinningCombinations[i])
    requires !Complete(board, WinningCombinations[i])
    ensures index == WinningCombinations[i].a || index == WinningCombinations[i].b || index == WinningCombinations[i].c
    ensures Owner(board[index := Mark(player)], WinningCombinations[i]) == player
  {
  }

  /** A complete line stays complete when an empty cell is marked: the cell
      cannot be on it. */
  lemma CompleteLineSurvivesMark(board: Board, index: Index, player: Player, i: int)
    requires board[index] == Empty
    requires 0 <= i < |WinningCombinations|
    requires Complete(board, WinningCombinations[i])
    ensures Complete(board[index := Mark(player)], WinningCombinations[i])
  {
  }

  /** A line owned by someone other than the player who marked `index` does
      not run through `index`, so it was complete before the mark. */
  lemma CompleteLineAvoidsOtherMark(board: Board, index: Index, player: Player, i: int)
    requires 0 <= i < |WinningCombinations|
    requires Complete(board[index := Mark(player)], WinningCombinations[i])
    requires Owner(board[index := Mark(player)], WinningCombinations[i]) != player
    ensures Complete(board, WinningCombinations[i])
  {
  }

  /** One mark on a board with no complete line leaves either no winner or
      the player who made it: every line it completes is that player's. */
  lemma MarkWinsOrUndecided(board: Board, index: Index, player: Player)
    requires !HasCompleteLine(board)
    requires board[index] == Empty
    ensures CheckWinner(board[index := Mark(player)]) == None
            || CheckWinner(board[index := Mark(player)]) == Some(player)
    ensures CheckWinner(board[index := Mark(player)]) == None <==> !HasCompleteLine(board[index := Mark(player)])
  {
    var after := board[index := Mark(player)];
    CheckWinnerIsFirstLineOwner(after);
    if CheckWinner(after).Some? {
      var i :| FirstCompleteAt(after, i) && Owner(after, WinningCombinations[i]) == CheckWinner(after).value;
      NewLineThroughMark(board, index, player, i);
    }
  }

  /** checkTie: every cell occupied and no winner. */
  function CheckTie(board: Board): (r: bool)
    ensures r <==> AvailableMoves(board) == [] && !HasCompleteLine(board)
  {
    AvailableMovesEmptyIffFull(board);
    CheckWinnerIsFirstLineOwner(board);
    IsFull(board) && CheckWinner(board).None?
  }

  /** isGameOver: a winner or a tie. */
  function IsGameOver(board: Board): (r: bool)
    ensures r <==> HasCompleteLine(board) || AvailableMoves(board) == []
  {
    CheckWinnerIsFirstLineOwner(board);
    CheckWinner(board).Some? || CheckTie(board)
  }

  /** isValidMove: the index is on the board and the cell is empty. */
  function IsValidMove(board: Board, index: int): (r: bool)
    ensures r <==> index in AvailableMoves(board)
  {
    index >= 0 && index < 9 && board[index] == Empty
  }

  /** makeMove: `None` (the source's `null`) on an invalid move, otherwise a
      fresh board with `player` in cell `index` and every other cell as before. */
  function MakeMove(board: Board, index: int, player: Player): (r: Option<Board>)
    ensures r.None? <==> !IsValidMove(board, index)
    ensures r.Some? ==> r.value[index] == Mark(player)
    ensures r.Some? ==> forall j :: 0 <= j < 9 && j != index ==> r.value[j] == board[j]
  {
    if index < 0 || index > 8 || board[index] != Empty then None
    else Some(board[index := Mark(player)])
  }

  /** The empty cells among indices below `n`, pushed in ascending order. */
  function MovesBelow(board: Board, n: nat): (r: seq<Index>)
    requires n <= 9
    ensures forall i, j :: 0 <= i < j < |r| ==> r[i] < r[j]
    ensures forall i :: 0 <= i < |r| ==> r[i] < n && board[r[i]] == Empty
    ensures forall k :: 0 <= k < n && board[k] == Empty ==> k in r
  {
    if n == 0 then []
    else if board[n - 1] == Empty then MovesBelow(board, n - 1) + [n - 1]
    else MovesBelow(board, n - 1)
  }

  /** getAvailableMoves: the indices of the empty cells, ascending. */
  function AvailableMoves(board: Board): (r: seq<Index>)
    ensures forall i, j :: 0 <= i < j < |r| ==> r[i] < r[j]
    ensures forall k :: k in r <==> 0 <= k < 9 && board[k] == Empty
  {
    MovesBelow(board, 9)
  }

  /** There is no available move exactly when the board is full. */
  lemma AvailableMovesEmptyIffFull(board: Board)
    ensures AvailableMoves(board) == [] <==> IsFull(board)
  {
    if !IsFull(board) {
      var k :| 0 <= k < 9 && board[k] == Empty;
      assert k in AvailableMoves(board);
    }
    if AvailableMoves(board) != [] {
      var k := AvailableMoves(board)[0];
      assert k in AvailableMoves(board);
    }
  }

  /** The number of empty cells among indices below `n`. */
  function EmptyBelow(board: Board, n: nat): nat
    requires n <= 9
  {
    if n == 0 then 0
    else EmptyBelow(board, n - 1) + (if board[n - 1] == Empty then 1 else 0)
  }

  /** The move list below `n` has one entry per empty cell below `n`. */
  lemma {:induction false} MovesBelowCount(board: Board, n: nat)
    requires n <= 9
    ensures |MovesBelow(board, n)| == EmptyBelow(board, n)
  {
    if n > 0 {
      MovesBelowCount(board, n - 1);
    }
  }

  /** Marking an empty cell removes it from the count of every prefix that
      contains it, and from no other. */
  lemma {:induction false} EmptyBelowAfterMove(board: Board, index: Index, player: Player, n: nat)
    requires n <= 9
    requires board[index] == Empty
    ensures EmptyBelow(board[index := Mark(player)], n)
            == EmptyBelow(board, n) - (if index < n then 1 else 0)
  {
    if n > 0 {
      EmptyBelowAfterMove(board, index, player, n - 1);
    }
  }

  /** On an all-empty board every cell below `n` is counted. */
  lemma {:induction false} EmptyBelowAllEmpty(board: Board, n: nat)
    requires n <= 9
    requires forall i :: 0 <= i < 9 ==> board[i] == Empty
    ensures EmptyBelow(board, n) == n
  {
    if n > 0 {
      EmptyBelowAllEmpty(board, n - 1);
    }
  }

  /** A prefix of length `n` has at most `n` empty cells. */
  lemma {:induction false} EmptyBelowBound(board: Board, n: nat)
    requires n <= 9
    ensures EmptyBelow(board, n) <= n
  {
    if n > 0 {
      EmptyBelowBound(board, n - 1);
    }
  }

  /** A board has at most nine available moves. */
  lemma AvailableMovesAtMostNine(board: Board)
    ensures |AvailableMoves(board)| <= 9
  {
    MovesBelowCount(board, 9);
    EmptyBelowBound(board, 9);
  }

  /** A successful move takes away exactly one available move; this is what
      makes the minimax recursion terminate. */
  lemma MoveRemovesOneAvailable(board: Board, index: int, player: Player)
    requires IsValidMove(board, index)
    ensures |AvailableMoves(MakeMove(board, index, player).value)| == |AvailableMoves(board)| - 1
  {
    var after := MakeMove(board, index, player).value;
    assert after == board[index := Mark(player)];
    MovesBelowCount(board, 9);
    MovesBelowCount(after, 9);
    EmptyBelowAfterMove(board, index, player, 9);
  }

  /** getOpponent: "X" for "O" and "O" for "X". */
  function GetOpponent(player: Player): (r: Player)
    ensures r != player
  {
    if player == X then O else X
  }

  /** getOpponent is an involution on {X, O}. */
  lemma OpponentInvolution(player: Player)
    ensures GetOpponent(GetOpponent(player)) == player
  {
  }

  /** A reported winner is either `player` or `player`'s opponent. */
  lemma OpponentIsTheOtherMark(player: Player, winner: Option<Player>)
    ensures winner == None || winner == Some(player) || winner == Some(GetOpponent(player))
  {
    match winner
    case None =>
    case Some(p) =>
      match p
      case X =>
      case O =>
  }

  /** coordinatesToIndex: row-major index, or `None` (the source throws) when
      a coordinate is outside 0..2. */
  function CoordinatesToIndex(row: int, col: int): (r: Option<int>)
    ensures r.None? <==> !(0 <= row <= 2 && 0 <= col <= 2)
    ensures r.Some? ==> 0 <= r.value <= 8 && r.value / 3 == row && r.value % 3 == col
  {
    if row < 0 || row > 2 || col < 0 || col > 2 then None
    else Some(row * 3 + col)
  }

  /** Row and column of a cell. */
  datatype Coordinates = Coordinates(row: int, col: int)

  /** indexToCoordinates: (floor(index / 3), index % 3), or `None` (the source
      throws) when the index is outside 0..8. */
  function IndexToCoordinates(index: int): (r: Option<Coordinates>)
    ensures r.None? <==> !(0 <= index <= 8)
    ensures r.Some? ==> 0 <= r.value.row <= 2 && 0 <= r.value.col <= 2
                        && r.value.row * 3 + r.value.col == index
  {
    // index is non-negative here, so Dafny's Euclidean division agrees with
    // Math.floor(index / 3) and JavaScript's `%`.
    if index < 0 || index > 8 then None
    else Some(Coordinates(index / 3, index % 3))
  }

  /** Coordinates to index and back is the identity on the 3x3 grid. */
  lemma CoordinatesRoundTrip(row: int, col: int)
    requires 0 <= row <= 2 && 0 <= col <= 2
    ensures CoordinatesToIndex(row, col).Some?
    ensures IndexToCoordinates(CoordinatesToIndex(row, col).value) == Some(Coordinates(row, col))
  {
  }

  /** Index to coordinates and back is the identity on 0..8. */
  lemma IndexRoundTrip(index: int)
    requires 0 <= index <= 8
    ensures IndexToCoordinates(index).Some?
    ensures CoordinatesToIndex(IndexToCoordinates(index).value.row, IndexToCoordinates(index).value.col)
            == Some(index)
  {
  }

  /** resetBoard: nine empty cells. */
  function ResetBoard(): (r: Board)
    ensures |AvailableMoves(r)| == 9
    ensures !HasCompleteLine(r)
  {
    var r: Board := seq(9, _ => Empty);
    MovesBelowCount(r, 9);
    EmptyBelowAllEmpty(r, 9);
    r
  }

  /** getNextStarter: "player1" after "player1"'s turn to start goes to
      "player2", and any other value yields "player1". */
  function GetNextStarter(lastStarter: string): (r: string)
    ensures r == "player1" || r == "player2"
    ensures (lastStarter == "player1" || lastStarter == "player2") ==> r != lastStarter
    ensures lastStarter != "player1" ==> r == "player1"
  {
    if lastStarter == "player1" then "player2" else "player1"
  }

  /** Starters alternate: two steps return to the same starter. */
  lemma NextStarterAlternates(lastStarter: string)
    requires lastStarter == "player1" || lastStarter == "player2"
    ensures GetNextStarter(GetNextStarter(lastStarter)) == lastStarter
  {
  }
}
