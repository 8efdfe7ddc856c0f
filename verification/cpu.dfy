/** The CPU difficulty policy (js/cpu.js): easy picks at random, medium tries
    win / block / centre / corner / anything in that order, hard delegates to
    the minimax search. Every `Math.random()` draw is injected as `pick`: the
    source's `Math.floor(Math.random() * n)` becomes `pick % n`, which reaches
    every position of a list of length `n` and nothing outside it. */
module Cpu {

  import opened Options
  import opened GameLogic
  import opened Search

  /** The board the medium tier tests a hypothetical move on, built with
      slices as the source does. */
  function WithMark(board: Board, move: Index, player: Player): (r: Board)
    ensures r == board[move := Mark(player)]
  {
    var r := board[..move] + [Mark(player)] + board[move + 1..];
    assert r == board[move := Mark(player)];
    r
  }

  /** Putting `player` on cell `move` makes `player` the winner. */
  predicate WinsWith(board: Board, move: Index, player: Player) {
    CheckWinner(WithMark(board, move, player)) == Some(player)
  }

  /** Putting `player` on the empty cell `move` makes `player` the winner. */
  predicate ImmediateWin(board: Board, move: int, player: Player) {
    IsValidMove(board, move) && WinsWith(board, move, player)
  }

  /** `player` has some move that wins at once. */
  predicate HasImmediateWin(board: Board, player: Player) {
    exists m :: 0 <= m < 9 && ImmediateWin(board, m, player)
  }

  /** `move` wins at once for `player`, and no lower-indexed move does. */
  predicate IsLowestWin(board: Board, move: int, player: Player) {
    ImmediateWin(board, move, player) && forall m :: 0 <= m < move ==> !ImmediateWin(board, m, player)
  }

  /** The medium tier's scan: the first move of `moves`, from position `k`
      on, that wins at once for `player`. */
  function FirstWinningMove(board: Board, moves: seq<Index>, k: nat, player: Player): Option<Index>
    requires k <= |moves|
    decreases |moves| - k
  {
    if k == |moves| then None
    else if WinsWith(board, moves[k], player) then Some(moves[k])
    else FirstWinningMove(board, moves, k + 1, player)
  }

  /** The scan from position `k` finds nothing exactly when no move listed
      from `k` on wins at once, and otherwise the first such move. */
  lemma {:induction false} FirstWinningMoveScan(board: Board, moves: seq<Index>, k: nat, player: Player)
    requires k <= |moves|
    ensures FirstWinningMove(board, moves, k, player).None? ==>
              forall i :: k <= i < |moves| ==> !WinsWith(board, moves[i], player)
    ensures FirstWinningMove(board, moves, k, player).Some? ==>
              exists i :: && k <= i < |moves| && moves[i] == FirstWinningMove(board, moves, k, player).value
                          && WinsWith(board, moves[i], player)
                          && forall j :: k <= j < i ==> !WinsWith(board, moves[j], player)
    decreases |moves| - k
  {
    if k < |moves| {
      if !WinsWith(board, moves[k], player) {
        FirstWinningMoveScan(board, moves, k + 1, player);
        if FirstWinningMove(board, moves, k + 1, player).Some? {
          var i :| && k + 1 <= i < |moves| && moves[i] == FirstWinningMove(board, moves, k + 1, player).value
                   && WinsWith(board, moves[i], player)
                   && forall j :: k + 1 <= j < i ==> !WinsWith(board, moves[j], player);
          assert forall j :: k <= j < i ==> !WinsWith(board, moves[j], player);
        }
      }
    }
  }

  /** A scan of the available moves that finds nothing rules out every
      immediate win. */
  lemma NoWinFound(board: Board, player: Player)
    requires FirstWinningMove(board, AvailableMoves(board), 0, player).None?
    ensures !HasImmediateWin(board, player)
  {
    var moves := AvailableMoves(board);
    FirstWinningMoveScan(board, moves, 0, player);
    forall m | 0 <= m < 9 && IsValidMove(board, m) ensures !WinsWith(board, m, player) {
      var k :| 0 <= k < |moves| && moves[k] == m;
    }
  }

  /** A scan of the available moves, which are ascending, that finds a move
      finds the lowest winning one. */
  lemma LowestWinFound(board: Board, player: Player)
    requires FirstWinningMove(board, AvailableMoves(board), 0, player).Some?
    ensures IsLowestWin(board, FirstWinningMove(board, AvailableMoves(board), 0, player).value, player)
  {
    var moves := AvailableMoves(board);
    var r := FirstWinningMove(board, moves, 0, player);
    FirstWinningMoveScan(board, moves, 0, player);
    var i :| && 0 <= i < |moves| && moves[i] == r.value
             && WinsWith(board, moves[i], player)
             && forall j :: 0 <= j < i ==> !WinsWith(board, moves[j], player);
    forall m | 0 <= m < r.value && IsValidMove(board, m) ensures !WinsWith(board, m, player) {
      var k :| 0 <= k < |moves| && moves[k] == m;
    }
  }

  /** Scanning the available moves finds the lowest winning move, and finds
      nothing exactly when there is none. */
  lemma FirstWinningIsLowest(board: Board, player: Player)
    ensures FirstWinningMove(board, AvailableMoves(board), 0, player).None? <==> !HasImmediateWin(board, player)
    ensures FirstWinningMove(board, AvailableMoves(board), 0, player).Some? ==>
              IsLowestWin(board, FirstWinningMove(board, AvailableMoves(board), 0, player).value, player)
  {
    if FirstWinningMove(board, AvailableMoves(board), 0, player).None? {
      NoWinFound(board, player);
    } else {
      LowestWinFound(board, player);
    }
  }

  /** The corner cells, in the order the source lists them. */
  const Corners: seq<Index> := [0, 2, 6, 8]

  /** The cells of `cells` that are empty, in order (Array.filter): an
      ascending list of cells gives an ascending list of empty cells. */
  function EmptyAmong(board: Board, cells: seq<Index>): (r: seq<Index>)
    ensures forall x :: x in r <==> x in cells && board[x] == Empty
    ensures (forall i, j :: 0 <= i < j < |cells| ==> cells[i] < cells[j])
            ==> forall i, j :: 0 <= i < j < |r| ==> r[i] < r[j]
  {
    if cells == [] then []
    else if board[cells[0]] == Empty then
      var rest := EmptyAmong(board, cells[1..]);
      assert (forall i, j :: 0 <= i < j < |cells| ==> cells[i] < cells[j])
             ==> forall k :: 0 <= k < |rest| ==> cells[0] < rest[k] by {
        if forall i, j :: 0 <= i < j < |cells| ==> cells[i] < cells[j] {
          forall k | 0 <= k < |rest| ensures cells[0] < rest[k] {
            assert rest[k] in cells[1..];
            var n :| 0 <= n < |cells[1..]| && cells[1..][n] == rest[k];
            assert cells[n + 1] == rest[k];
          }
        }
      }
      [cells[0]] + rest
    else EmptyAmong(board, cells[1..])
  }

  /** makeEasyMove: a random pick among the available moves. */
  function MakeEasyMove(availableMoves: seq<Index>, pick: nat): (r: Index)
    requires |availableMoves| > 0
    ensures r in availableMoves
  {
    availableMoves[pick % |availableMoves|]
  }

  /** The easy tier can land on every available move. */
  lemma EasyReachesEveryMove(availableMoves: seq<Index>, i: nat)
    requires i < |availableMoves|
    ensures MakeEasyMove(availableMoves, i) == availableMoves[i]
  {
    assert i % |availableMoves| == i;
  }

  /** makeMediumMove: win now, else block now, else the centre, else a random
      empty corner, else a random available move. */
  function MakeMediumMove(board: Board, cpuPlayer: Player, availableMoves: seq<Index>, pick: nat): (r: Index)
    requires availableMoves == AvailableMoves(board) && |availableMoves| > 0
    ensures IsValidMove(board, r)
    ensures HasImmediateWin(board, cpuPlayer) ==> IsLowestWin(board, r, cpuPlayer)
    ensures !HasImmediateWin(board, cpuPlayer) && HasImmediateWin(board, GetOpponent(cpuPlayer))
            ==> IsLowestWin(board, r, GetOpponent(cpuPlayer))
    ensures (!HasImmediateWin(board, cpuPlayer) && !HasImmediateWin(board, GetOpponent(cpuPlayer))
             && board[4] == Empty) ==> r == 4
    ensures (!HasImmediateWin(board, cpuPlayer) && !HasImmediateWin(board, GetOpponent(cpuPlayer))
             && board[4] != Empty) ==> (r in Corners <==> exists c :: c in Corners && board[c] == Empty)
  {
    var humanPlayer := GetOpponent(cpuPlayer);
    FirstWinningIsLowest(board, cpuPlayer);
    FirstWinningIsLowest(board, humanPlayer);
    match FirstWinningMove(board, availableMoves, 0, cpuPlayer)
    case Some(m) => m
    case None =>
      match FirstWinningMove(board, availableMoves, 0, humanPlayer)
      case Some(m) => m
      case None =>
        if board[4] == Empty then 4
        else
          var corners := EmptyAmong(board, Corners);
          if |corners| > 0 then
            assert corners[pick % |corners|] in corners;
            corners[pick % |corners|]
          else availableMoves[pick % |availableMoves|]
  }

  /** Past the win, block and centre steps, medium draws among the empty
      corners when there is one. */
  lemma MediumCornerStep(board: Board, player: Player, pick: nat)
    requires !HasImmediateWin(board, player) && !HasImmediateWin(board, GetOpponent(player))
    requires board[4] != Empty
    requires |EmptyAmong(board, Corners)| > 0
    ensures AvailableMoves(board) != []
    ensures MakeMediumMove(board, player, AvailableMoves(board), pick)
            == EmptyAmong(board, Corners)[pick % |EmptyAmong(board, Corners)|]
  {
    var corners := EmptyAmong(board, Corners);
    assert corners[0] in AvailableMoves(board);
    FirstWinningIsLowest(board, player);
    FirstWinningIsLowest(board, GetOpponent(player));
  }

  /** Past the win, block and centre steps, every empty corner is medium's
      answer for some random draw. */
  lemma MediumReachesEveryEmptyCorner(board: Board, player: Player, x: Index)
    requires !HasImmediateWin(board, player) && !HasImmediateWin(board, GetOpponent(player))
    requires board[4] != Empty
    requires x in Corners && board[x] == Empty
    ensures exists pick: nat :: MakeMediumMove(board, player, AvailableMoves(board), pick) == x
  {
    var corners := EmptyAmong(board, Corners);
    var i :| 0 <= i < |corners| && corners[i] == x;
    assert i % |corners| == i;
    MediumCornerStep(board, player, i);
    assert MakeMediumMove(board, player, AvailableMoves(board), i) == x;
  }

  /** makeHardMove: the move findBestMove chooses, an empty cell with the
      best minimax score (-1 only when there is none). */
  function MakeHardMove(board: Board, cpuPlayer: Player): (r: int)
    ensures r == -1 <==> AvailableMoves(board) == []
    ensures r != -1 ==> IsValidMove(board, r)
    ensures r != -1 ==> forall m :: IsValidMove(board, m) ==> MoveScore(board, cpuPlayer, m) <= MoveScore(board, cpuPlayer, r)
    ensures r != -1 ==> forall m :: IsValidMove(board, m) && m < r ==> MoveScore(board, cpuPlayer, m) < MoveScore(board, cpuPlayer, r)
  {
    FindBestMove(board, cpuPlayer)
  }

  /** makeCpuMove: -1 when no cell is empty, whatever the difficulty;
      otherwise the move of the requested tier, any unknown difficulty
      string being treated as "medium". */
  function MakeCpuMove(board: Board, cpuPlayer: Player, difficulty: string, pick: nat): (r: int)
    ensures r == -1 <==> AvailableMoves(board) == []
    ensures r != -1 ==> IsValidMove(board, r)
    ensures difficulty == "hard" ==> r == FindBestMove(board, cpuPlayer)
  {
    var availableMoves := AvailableMoves(board);
    if |availableMoves| == 0 then -1
    else if difficulty == "easy" then MakeEasyMove(availableMoves, pick)
    else if difficulty == "medium" then MakeMediumMove(board, cpuPlayer, availableMoves, pick)
    else if difficulty == "hard" then MakeHardMove(board, cpuPlayer)
    else MakeMediumMove(board, cpuPlayer, availableMoves, pick)
  }

  /** A difficulty string other than "easy", "medium" and "hard" behaves
      exactly like "medium". */
  lemma UnknownDifficultyIsMedium(board: Board, cpuPlayer: Player, difficulty: string, pick: nat)
    requires difficulty != "easy" && difficulty != "medium" && difficulty != "hard"
    ensures MakeCpuMove(board, cpuPlayer, difficulty, pick) == MakeCpuMove(board, cpuPlayer, "medium", pick)
  {
  }

  /** Two lowest winning moves are the same move. */
  lemma LowestWinUnique(board: Board, player: Player, a: int, b: int)
    requires IsLowestWin(board, a, player) && IsLowestWin(board, b, player)
    ensures a == b
  {
  }

  /** A move wins at once exactly when its search score is the maximum, 10. */
  lemma ImmediateWinIffScoreTen(board: Board, player: Player, move: int)
    requires IsValidMove(board, move)
    ensures ImmediateWin(board, move, player) <==> MoveScore(board, player, move) == 10
  {
    MoveScoreTenIffImmediateWin(board, player, move);
    assert MakeMove(board, move, player).value == WithMark(board, move, player);
  }

  /** The first best move of the search is the lowest winning move whenever
      a winning move exists. */
  lemma BestMoveIsLowestWin(board: Board, player: Player)
    requires HasImmediateWin(board, player)
    ensures IsLowestWin(board, FindBestMove(board, player), player)
  {
    var r := FindBestMove(board, player);
    var w :| 0 <= w < 9 && ImmediateWin(board, w, player);
    ImmediateWinIffScoreTen(board, player, w);
    assert r != -1;
    MoveScoreTenIffImmediateWin(board, player, r);
    ImmediateWinIffScoreTen(board, player, r);
    forall m | 0 <= m < r ensures !ImmediateWin(board, m, player) {
      if IsValidMove(board, m) {
        ImmediateWinIffScoreTen(board, player, m);
      }
    }
  }

  /** When the CPU can win at once, the hard tier takes the lowest winning
      move, which is also the move the medium tier takes. */
  lemma HardTakesImmediateWin(board: Board, cpuPlayer: Player, pick: nat)
    requires HasImmediateWin(board, cpuPlayer)
    ensures IsLowestWin(board, MakeCpuMove(board, cpuPlayer, "hard", pick), cpuPlayer)
    ensures MakeCpuMove(board, cpuPlayer, "hard", pick) == MakeCpuMove(board, cpuPlayer, "medium", pick)
  {
    BestMoveIsLowestWin(board, cpuPlayer);
    var hard := MakeCpuMove(board, cpuPlayer, "hard", pick);
    var medium := MakeCpuMove(board, cpuPlayer, "medium", pick);
    assert AvailableMoves(board) != [];
    assert medium == MakeMediumMove(board, cpuPlayer, AvailableMoves(board), pick);
    LowestWinUnique(board, cpuPlayer, hard, medium);
  }

  /** `c` is the opponent's one and only immediately winning cell. */
  predicate OnlyThreat(board: Board, player: Player, c: Index) {
    && ImmediateWin(board, c, GetOpponent(player))
    && forall d :: 0 <= d < 9 && d != c ==> !ImmediateWin(board, d, GetOpponent(player))
  }

  /** A winning cell of the opponent stays winning after `player` marks
      another cell without completing a line. */
  lemma ThreatStillWins(board: Board, player: Player, c: Index, m: Index)
    requires board[m] == Empty && board[c] == Empty && m != c
    requires !HasCompleteLine(board[m := Mark(player)])
    requires CheckWinner(board[c := Mark(GetOpponent(player))]) == Some(GetOpponent(player))
    ensures CheckWinner(board[m := Mark(player)][c := Mark(GetOpponent(player))]) == Some(GetOpponent(player))
  {
    var q := GetOpponent(player);
    var child := board[m := Mark(player)];
    var threat := board[c := Mark(q)];
    CheckWinnerIsFirstLineOwner(threat);
    var i :| FirstCompleteAt(threat, i) && Owner(threat, WinningCombinations[i]) == q;
    CompleteLineSurvivesMark(threat, m, player, i);
    assert child[c := Mark(q)] == threat[m := Mark(player)];
    MarkWinsOrUndecided(child, c, q);
  }

  /** Leaving the only threat open loses one ply later: every other move
      scores at most -9, because the opponent can then complete the
      threatened line. */
  lemma UnblockedThreatScore(board: Board, player: Player, c: Index, m: Index)
    requires !HasCompleteLine(board)
    requires !HasImmediateWin(board, player)
    requires OnlyThreat(board, player, c)
    requires IsValidMove(board, m) && m != c
    ensures MoveScore(board, player, m) <= -9
  {
    var child := board[m := Mark(player)];
    assert !ImmediateWin(board, m, player);
    MarkWinsOrUndecided(board, m, player);
    ThreatStillWins(board, player, c, m);
    assert IsValidMove(child, c);
    MinimaxIsBestChild(child, 0, false, player);
    assert ChildScore(child, c, 0, false, player) == -9;
  }

  /** A reply that completes a line after `player` marked `c` would have
      completed the same line without that mark, since the line runs through
      the reply's cell and so is the opponent's, not through `c`. */
  lemma ReplyWinWasThreat(board: Board, player: Player, c: Index, d: Index)
    requires !HasCompleteLine(board)
    requires !HasCompleteLine(board[c := Mark(player)])
    requires d != c && board[c] == Empty && board[d] == Empty
    ensures HasCompleteLine(board[c := Mark(player)][d := Mark(GetOpponent(player))])
            ==> CheckWinner(board[d := Mark(GetOpponent(player))]) == Some(GetOpponent(player))
  {
    var q := GetOpponent(player);
    var child := board[c := Mark(player)];
    var grand := child[d := Mark(q)];
    if HasCompleteLine(grand) {
      MarkWinsOrUndecided(child, d, q);
      CheckWinnerIsFirstLineOwner(grand);
      var i :| FirstCompleteAt(grand, i) && Owner(grand, WinningCombinations[i]) == CheckWinner(grand).value;
      NewLineThroughMark(child, d, q, i);
      var reply := board[d := Mark(q)];
      assert grand == reply[c := Mark(player)];
      CompleteLineAvoidsOtherMark(reply, c, player, i);
      MarkWinsOrUndecided(board, d, q);
    }
  }

  /** Once `player` blocks the only threat, no reply of the opponent wins. */
  lemma BlockedThreatHasNoReply(board: Board, player: Player, c: Index, d: Index)
    requires !HasCompleteLine(board)
    requires !HasImmediateWin(board, player)
    requires OnlyThreat(board, player, c)
    requires d != c && board[d] == Empty
    ensures !HasCompleteLine(board[c := Mark(player)][d := Mark(GetOpponent(player))])
  {
    assert !ImmediateWin(board, c, player);
    MarkWinsOrUndecided(board, c, player);
    ReplyWinWasThreat(board, player, c, d);
    assert !ImmediateWin(board, d, GetOpponent(player));
  }

  /** Blocking the only threat scores at least -8: after the block the
      opponent has no winning reply, so the game is still open one ply
      deeper, or ends in a tie. */
  lemma BlockedThreatScore(board: Board, player: Player, c: Index)
    requires !HasCompleteLine(board)
    requires !HasImmediateWin(board, player)
    requires OnlyThreat(board, player, c)
    ensures IsValidMove(board, c)
    ensures MoveScore(board, player, c) >= -8
  {
    var q := GetOpponent(player);
    var child := board[c := Mark(player)];
    assert !ImmediateWin(board, c, player);
    MarkWinsOrUndecided(board, c, player);
    MoveRemovesOneAvailable(board, c, player);
    AvailableMovesAtMostNine(board);
    if AvailableMoves(child) != [] {
      MinimaxIsBestChild(child, 0, false, player);
      var d :| d in AvailableMoves(child)
               && Minimax(child, 0, false, player) == ChildScore(child, d, 0, false, player);
      BlockedThreatHasNoReply(board, player, c, d);
      MoveRemovesOneAvailable(child, d, q);
    }
  }

  /** With no win of its own and exactly one opponent threat, findBestMove
      (the hard tier) blocks that threat. */
  lemma HardBlocksSingleThreat(board: Board, player: Player, c: Index)
    requires !HasCompleteLine(board)
    requires !HasImmediateWin(board, player)
    requires OnlyThreat(board, player, c)
    ensures FindBestMove(board, player) == c
  {
    BlockedThreatScore(board, player, c);
    var r := FindBestMove(board, player);
    assert c in AvailableMoves(board);
    if r != c {
      UnblockedThreatScore(board, player, c, r);
    }
  }

  /** A player with at most one mark on a board where no line is complete
      cannot win with one more move: a line needs three marks. */
  lemma NoImmediateWinWithOneMark(board: Board, player: Player)
    requires !HasCompleteLine(board)
    requires forall i, j :: 0 <= i < 9 && 0 <= j < 9 && board[i] == Mark(player) && board[j] == Mark(player) ==> i == j
    ensures !HasImmediateWin(board, player)
  {
    forall m | 0 <= m < 9 && IsValidMove(board, m) ensures !ImmediateWin(board, m, player) {
      var after := WithMark(board, m, player);
      forall i | 0 <= i < |WinningCombinations| ensures !Complete(after, WinningCombinations[i]) {
        LineCellsDistinct(i);
      }
      CheckWinnerIsFirstLineOwner(after);
    }
  }

  /** X threatens the top row; O, with no win of its own, blocks at 2. */
  lemma MediumBlocksTopRow(board: Board, pick: nat)
    requires board == [Mark(X), Mark(X), Empty, Mark(O), Empty, Empty, Empty, Empty, Empty]
    ensures MakeCpuMove(board, O, "medium", pick) == 2
  {
    forall i | 0 <= i < |WinningCombinations| ensures !Complete(board, WinningCombinations[i]) {
      assert i in {0, 1, 2, 3, 4, 5, 6, 7};
    }
    NoImmediateWinWithOneMark(board, O);
    var top := WithMark(board, 2, X);
    assert Complete(top, WinningCombinations[0]);
    CheckWinnerIsFirstLineOwner(top);
    assert FirstCompleteAt(top, 0);
    assert IsLowestWin(board, 2, X);
    assert HasImmediateWin(board, X);
    var moves := AvailableMoves(board);
    assert 2 in moves;
    var r := MakeMediumMove(board, O, moves, pick);
    assert IsLowestWin(board, r, X);
    LowestWinUnique(board, X, r, 2);
    assert MakeCpuMove(board, O, "medium", pick) == r;
  }

  /** X threatens the top row; O, with no win of its own, blocks at 2 on the
      hard tier too, since cell 2 is X's only winning cell. */
  lemma HardBlocksTopRow(board: Board, pick: nat)
    requires board == [Mark(X), Mark(X), Empty, Mark(O), Empty, Empty, Empty, Empty, Empty]
    ensures MakeCpuMove(board, O, "hard", pick) == 2
  {
    forall i | 0 <= i < |WinningCombinations| ensures !Complete(board, WinningCombinations[i]) {
      assert i in {0, 1, 2, 3, 4, 5, 6, 7};
    }
    NoImmediateWinWithOneMark(board, O);
    var top := WithMark(board, 2, X);
    assert Complete(top, WinningCombinations[0]);
    CheckWinnerIsFirstLineOwner(top);
    assert FirstCompleteAt(top, 0);
    forall d | 0 <= d < 9 && d != 2 ensures !ImmediateWin(board, d, X) {
      if IsValidMove(board, d) {
        var after := WithMark(board, d, X);
        forall i | 0 <= i < |WinningCombinations| ensures !Complete(after, WinningCombinations[i]) {
          assert i in {0, 1, 2, 3, 4, 5, 6, 7};
        }
        CheckWinnerIsFirstLineOwner(after);
      }
    }
    HardBlocksSingleThreat(board, O, 2);
  }

  /** On the empty board nobody can win or block, so medium takes the centre. */
  lemma MediumOpensInCentre(board: Board, player: Player, pick: nat)
    requires forall i :: 0 <= i < 9 ==> board[i] == Empty
    ensures MakeCpuMove(board, player, "medium", pick) == 4
  {
    assert !HasCompleteLine(board);
    NoImmediateWinWithOneMark(board, player);
    NoImmediateWinWithOneMark(board, GetOpponent(player));
    assert 4 in AvailableMoves(board);
    var r := MakeCpuMove(board, player, "medium", pick);
    assert r == MakeMediumMove(board, player, AvailableMoves(board), pick);
  }
}
