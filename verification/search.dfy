/** The search engine of the tic-tac-toe engine: board evaluation, full-depth
    minimax with depth-adjusted scores, and the choice of the best move
    (js/gameLogic.js). */
module Search {

  import opened Options
  import opened GameLogic

  /** evaluateBoard: +10 when `player` is the winner, -10 when the other mark
      is, 0 when nobody has won (a tie or a game still in progress). */
  function EvaluateBoard(board: Board, player: Player): (r: int)
    ensures r == 10 <==> CheckWinner(board) == Some(player)
    ensures r == -10 <==> CheckWinner(board) == Some(GetOpponent(player))
    ensures r == 0 <==> !HasCompleteLine(board)
  {
    var winner := CheckWinner(board);
    CheckWinnerIsFirstLineOwner(board);
    OpponentIsTheOtherMark(player, winner);
    if winner == Some(player) then 10
    else if winner != None then -10
    else 0
  }

  /** The mark placed on a ply: `player` on maximizing plies, the opponent on
      minimizing ones. */
  function Mover(isMaximizing: bool, player: Player): Player {
    if isMaximizing then player else GetOpponent(player)
  }

  /** The largest of a non-empty list of scores: minimax's running
      `Math.max`, whose -Infinity seed is absorbed by the first score. */
  function MaxOf(scores: seq<int>): (r: int)
    requires |scores| > 0
    ensures r in scores
    ensures forall i :: 0 <= i < |scores| ==> scores[i] <= r
  {
    if |scores| == 1 then scores[0]
    else
      var rest := MaxOf(scores[1..]);
      if scores[0] > rest then scores[0] else rest
  }

  /** The smallest of a non-empty list of scores: minimax's running
      `Math.min`, whose +Infinity seed is absorbed by the first score. */
  function MinOf(scores: seq<int>): (r: int)
    requires |scores| > 0
    ensures r in scores
    ensures forall i :: 0 <= i < |scores| ==> r <= scores[i]
  {
    if |scores| == 1 then scores[0]
    else
      var rest := MinOf(scores[1..]);
      if scores[0] < rest then scores[0] else rest
  }

  /** minimax: the score of `board` for `player`, `depth` plies below the root.
      A win found at depth d is worth 10 - d, a loss -10 + d, a full board 0.
      The range holds whenever the search can end by depth 10, which covers
      every call made by findBestMove. */
  function Minimax(board: Board, depth: nat, isMaximizing: bool, player: Player): (r: int)
    ensures CheckWinner(board) == Some(player) ==> r == 10 - depth
    ensures CheckWinner(board) == Some(GetOpponent(player)) ==> r == -10 + depth
    ensures !HasCompleteLine(board) && AvailableMoves(board) == [] ==> r == 0
    ensures depth + |AvailableMoves(board)| <= 10 ==> -(10 - depth) <= r <= 10 - depth
    ensures !HasCompleteLine(board) && AvailableMoves(board) != [] && depth + |AvailableMoves(board)| <= 10
            ==> -(9 - depth) <= r <= 9 - depth
    decreases |AvailableMoves(board)|, 1
  {
    var score := EvaluateBoard(board, player);
    if score == 10 then score - depth
    else if score == -10 then score + depth
    else if |AvailableMoves(board)| == 0 then 0
    else
      var moves := AvailableMoves(board);
      var scores := seq(|moves|, i requires 0 <= i < |moves| =>
                          ChildScore(board, moves[i], depth, isMaximizing, player));
      if isMaximizing then MaxOf(scores) else MinOf(scores)
  }

  /** The score of playing `move` on a `depth`-deep ply: the minimax value of
      the board after the move, one ply deeper, with the other side to move. */
  function ChildScore(board: Board, move: Index, depth: nat, isMaximizing: bool, player: Player): (r: int)
    requires IsValidMove(board, move)
    ensures depth + |AvailableMoves(board)| <= 10 ==> -(9 - depth) <= r <= 9 - depth
    decreases |AvailableMoves(board)|, 0
  {
    MoveRemovesOneAvailable(board, move, Mover(isMaximizing, player));
    Minimax(MakeMove(board, move, Mover(isMaximizing, player)).value, depth + 1, !isMaximizing, player)
  }

  /** On a position that is not decided yet, minimax is the best score over
      all available moves for the side to move: the largest child score on a
      maximizing ply, the smallest on a minimizing one, and some move reaches it. */
  lemma MinimaxIsBestChild(board: Board, depth: nat, isMaximizing: bool, player: Player)
    requires !HasCompleteLine(board) && AvailableMoves(board) != []
    ensures exists m :: m in AvailableMoves(board)
                        && Minimax(board, depth, isMaximizing, player)
                           == ChildScore(board, m, depth, isMaximizing, player)
    ensures forall m :: m in AvailableMoves(board) ==>
              if isMaximizing
              then ChildScore(board, m, depth, isMaximizing, player) <= Minimax(board, depth, isMaximizing, player)
              else Minimax(board, depth, isMaximizing, player) <= ChildScore(board, m, depth, isMaximizing, player)
  {
    var moves := AvailableMoves(board);
    var scores := seq(|moves|, i requires 0 <= i < |moves| =>
                        ChildScore(board, moves[i], depth, isMaximizing, player));
    var r := Minimax(board, depth, isMaximizing, player);
    assert r == if isMaximizing then MaxOf(scores) else MinOf(scores);
    var j :| 0 <= j < |scores| && scores[j] == r;
    assert moves[j] in moves;
    forall m | m in moves
      ensures if isMaximizing
              then ChildScore(board, m, depth, isMaximizing, player) <= r
              else r <= ChildScore(board, m, depth, isMaximizing, player)
    {
      var i :| 0 <= i < |moves| && moves[i] == m;
      assert scores[i] == ChildScore(board, m, depth, isMaximizing, player);
    }
  }

  /** The score findBestMove gives a candidate move: minimax of the board
      after the move, at depth 0, with the opponent to move. */
  function MoveScore(board: Board, player: Player, move: int): int
    requires IsValidMove(board, move)
  {
    MoveRemovesOneAvailable(board, move, player);
    Minimax(MakeMove(board, move, player).value, 0, false, player)
  }

  /** No move scores above 10, and a move scores exactly 10 when it wins at
      once: any other move leads to a loss, a tie, or a search that can only
      end one ply deeper or later. */
  lemma MoveScoreTenIffImmediateWin(board: Board, player: Player, move: int)
    requires IsValidMove(board, move)
    ensures MoveScore(board, player, move) <= 10
    ensures MoveScore(board, player, move) == 10 <==> CheckWinner(MakeMove(board, move, player).value) == Some(player)
  {
    var child := MakeMove(board, move, player).value;
    MoveRemovesOneAvailable(board, move, player);
    AvailableMovesAtMostNine(board);
    CheckWinnerIsFirstLineOwner(child);
    OpponentIsTheOtherMark(player, CheckWinner(child));
  }

  /** findBestMove's running best score, which starts at -Infinity. */
  datatype Extended = NegInfinity | Finite(value: int)

  /** The loop of findBestMove over a list of candidate scores, from position
      `i` on, carrying the best score so far and the position where it was
      found. A candidate replaces the best only when its score is strictly
      greater, so the first of several equal best scores is kept. */
  function FirstBestFrom(scores: seq<int>, i: nat, bestScore: Extended, best: int): (r: int)
    requires i <= |scores|
    requires i == 0 ==> bestScore == NegInfinity && best == -1
    requires i > 0 ==> && 0 <= best < i
                       && bestScore == Finite(scores[best])
                       && (forall k :: 0 <= k < i ==> scores[k] <= scores[best])
                       && (forall k :: 0 <= k < best ==> scores[k] < scores[best])
    ensures |scores| == 0 ==> r == -1
    ensures |scores| > 0 ==> && 0 <= r < |scores|
                             && (forall k :: 0 <= k < |scores| ==> scores[k] <= scores[r])
                             && (forall k :: 0 <= k < r ==> scores[k] < scores[r])
    decreases |scores| - i
  {
    if i == |scores| then best
    else if bestScore.NegInfinity? || scores[i] > bestScore.value then
      FirstBestFrom(scores, i + 1, Finite(scores[i]), i)
    else
      FirstBestFrom(scores, i + 1, bestScore, best)
  }

  /** findBestMove: -1 when no cell is empty; otherwise the empty cell whose
      minimax score is highest, the lowest-indexed one among equals. */
  function FindBestMove(board: Board, player: Player): (r: int)
    ensures r == -1 <==> AvailableMoves(board) == []
    ensures r != -1 ==> IsValidMove(board, r)
    ensures r != -1 ==> forall m :: IsValidMove(board, m) ==> MoveScore(board, player, m) <= MoveScore(board, player, r)
    ensures r != -1 ==> forall m :: IsValidMove(board, m) && m < r ==> MoveScore(board, player, m) < MoveScore(board, player, r)
  {
    var moves := AvailableMoves(board);
    var scores := seq(|moves|, i requires 0 <= i < |moves| => MoveScore(board, player, moves[i]));
    var best := FirstBestFrom(scores, 0, NegInfinity, -1);
    BestIsFirstMaximum(board, player, moves, scores, best);
    if best == -1 then -1 else moves[best]
  }

  /** The loop's final position, mapped back through the move list, is the
      first available move of maximal score. */
  lemma BestIsFirstMaximum(board: Board, player: Player, moves: seq<Index>, scores: seq<int>, best: int)
    requires moves == AvailableMoves(board)
    requires |scores| == |moves|
    requires forall i :: 0 <= i < |moves| ==> scores[i] == MoveScore(board, player, moves[i])
    requires |scores| > 0 ==> && 0 <= best < |scores|
                              && (forall k :: 0 <= k < |scores| ==> scores[k] <= scores[best])
                              && (forall k :: 0 <= k < best ==> scores[k] < scores[best])
    ensures |scores| > 0 ==>
              && IsValidMove(board, moves[best])
              && (forall m :: IsValidMove(board, m) ==> MoveScore(board, player, m) <= MoveScore(board, player, moves[best]))
              && (forall m :: IsValidMove(board, m) && m < moves[best] ==> MoveScore(board, player, m) < MoveScore(board, player, moves[best]))
  {
    if |scores| > 0 {
      forall m | IsValidMove(board, m)
        ensures MoveScore(board, player, m) <= MoveScore(board, player, moves[best])
        ensures m < moves[best] ==> MoveScore(board, player, m) < MoveScore(board, player, moves[best])
      {
        var k :| 0 <= k < |moves| && moves[k] == m;
      }
    }
  }
}
