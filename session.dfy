/** The game state the page keeps between clicks: the live board
    (originalBoard), the two-player turn counter and the chosen mode, with
    the operations that reset the board, apply a move and handle a click. */
module Session {
  import opened BoardModel
  import opened MoveSelector

  /** The three menu choices: two players, or against the computer in easy
      (random) or expert (minimax) mode. */
  datatype Mode = PvP | PvCEasy | PvCExpert

  /** What a move leads to: a completed line for the mover, a full board, or
      neither. A win is tested before the tie. */
  datatype Outcome = Won(win: Win) | Tie | Ongoing

  function OutcomeAfter(b: Board, player: Player): (o: Outcome)
    ensures o.Won? <==> WinOf(b, player).Some?
    ensures o.Won? ==> WinOf(b, player) == Some(o.win)
    ensures o == Tie <==> WinOf(b, player).None? && forall i :: 0 <= i < |b| ==> b[i].Mark?
  {
    match WinOf(b, player)
    case Some(w) => Won(w)
    case None => if IsTie(b) then Tie else Ongoing
  }

  /** The cell bestSpot chooses for the computer: a random empty square in
      easy mode, the minimax choice otherwise; None when there is no move.
      Whatever it chooses is an empty cell, named by its index. */
  function SpotFor(b: Board, mode: Mode, k: nat): (r: Option<int>)
    requires WellNumbered(b) && (k == 0 || k < |EmptySquares(b)|)
    ensures r.Some? ==> 0 <= r.value < |b| && b[r.value] == Num(r.value)
  {
    if mode == PvCEasy then
      if |EmptySquares(b)| > 0 then
        RandomPickIsEmptyCell(b, k);
        RandomPick(EmptySquares(b), k)
      else RandomPick(EmptySquares(b), k)
    else MinimaxOf(b, AiPlayer).index
  }

  /** The board after the computer's reply to the human's move, as the
      click handler makes it: no reply on a full board, none when bestSpot
      has no cell to offer, otherwise the computer's mark on that cell. So
      at most one cell changes, from a number to the computer's mark, the
      board stays well numbered, and a reply is made whenever the board is
      not full and bestSpot offers a cell. */
  function AfterReply(b: Board, mode: Mode, k: nat): (r: Board)
    requires WellNumbered(b) && (k == 0 || k < |EmptySquares(b)|)
    ensures |r| == |b| && WellNumbered(r)
    ensures forall i :: 0 <= i < |b| && r[i] != b[i] ==> b[i].Num? && r[i] == Mark(AiPlayer)
    ensures forall i, j :: 0 <= i < j < |b| && r[i] != b[i] ==> r[j] == b[j]
    ensures IsTie(b) ==> r == b
    ensures !IsTie(b) && SpotFor(b, mode, k).Some? ==> r != b
  {
    if IsTie(b) then b
    else
      match SpotFor(b, mode, k)
      case None => b
      case Some(s) =>
        PlaceShrinks(b, s, AiPlayer);
        b[s := Mark(AiPlayer)]
  }

  class Game {
    var originalBoard: array<Cell>
    var turnCount: nat
    var mode: Mode

    /** The live board has nine cells and every empty cell holds its index. */
    ghost predicate BoardValid()
      reads this, originalBoard
    {
      originalBoard.Length == 9 && WellNumbered(originalBoard[..])
    }

    /** In two-player mode X has moved on every even count and O on every
        odd one, so X owns ceil(turnCount / 2) cells and O floor(turnCount / 2). */
    ghost predicate Valid()
      reads this, originalBoard
    {
      && BoardValid()
      && (mode == PvP ==>
            Count(originalBoard[..], X) == (turnCount + 1) / 2
            && Count(originalBoard[..], O) == turnCount / 2)
    }

    /** startGame: record the mode and start a fresh round. */
    constructor Start(mode: Mode)
      ensures Valid() && this.mode == mode
      ensures originalBoard[..] == FreshBoard() && turnCount == 0
    {
      this.mode := mode;
      originalBoard := new Cell[9](i => Num(i));
      turnCount := 0;
      new;
      assert originalBoard[..] == FreshBoard();
      FreshBoardFacts();
    }

    /** resetGame: a fresh board in which cell i holds i, and the turn count
        back to zero. */
    method ResetGame()
      modifies this
      ensures Valid() && fresh(originalBoard) && mode == old(mode)
      ensures originalBoard[..] == FreshBoard() && turnCount == 0
    {
      originalBoard := new Cell[9](i => Num(i));
      turnCount := 0;
      assert originalBoard[..] == FreshBoard();
      FreshBoardFacts();
    }

    /** turn: write the mark into the cell, then report a win for the mover
        or, failing that, a full board. */
    method Turn(squareId: int, player: Player) returns (outcome: Outcome)
      requires BoardValid() && 0 <= squareId < 9
      modifies originalBoard
      ensures BoardValid()
      ensures originalBoard[..] == old(originalBoard[..])[squareId := Mark(player)]
      ensures outcome == OutcomeAfter(originalBoard[..], player)
    {
      originalBoard[squareId] := Mark(player);
      var gameWon := CheckWin(originalBoard, player);
      if gameWon.Some? {
        outcome := Won(gameWon.value);
      } else if IsTie(originalBoard[..]) {
        outcome := Tie;
      } else {
        outcome := Ongoing;
      }
    }

    /** bestSpot: the random pick among the empty squares in easy mode, the
        cell minimax chooses for the computer otherwise. The search is run
        on the live board itself and leaves it as it was. */
    method BestSpot(k: nat) returns (spot: Option<int>)
      requires BoardValid() && (k == 0 || k < |EmptySquares(originalBoard[..])|)
      modifies originalBoard
      ensures originalBoard[..] == old(originalBoard[..])
      ensures spot == SpotFor(originalBoard[..], mode, k)
    {
      if mode == PvCEasy {
        var availableSpots := EmptySquares(originalBoard[..]);
        spot := RandomPick(availableSpots, k);
      } else {
        var best := Minimax(originalBoard, AiPlayer);
        spot := best.index;
      }
    }

    /** turnClick: a click on a cell that still holds a number is accepted;
        any other click changes nothing. In two-player mode the mark is X
        on an even turn count and O on an odd one, and the count goes up
        by one. Against the computer the human's O is written and, unless
        the board is then full, the computer replies; k is the random draw
        of easy mode. */
    method TurnClick(squareId: int, k: nat) returns (accepted: bool)
      requires Valid() && 0 <= squareId < 9
      requires k == 0 || k + 1 < |EmptySquares(originalBoard[..])|
      modifies this, originalBoard
      ensures Valid() && originalBoard == old(originalBoard) && mode == old(mode)
      ensures accepted == old(originalBoard[squareId]).Num?
      ensures !accepted ==> originalBoard[..] == old(originalBoard[..]) && turnCount == old(turnCount)
      ensures accepted && mode == PvP ==>
        && originalBoard[..] == old(originalBoard[..])[squareId := Mark(if old(turnCount) % 2 == 1 then O else X)]
        && turnCount == old(turnCount) + 1
      ensures accepted && mode != PvP ==>
        && turnCount == old(turnCount)
        && |EmptySquares(old(originalBoard[..])[squareId := Mark(HumanPlayer)])| + 1 == |EmptySquares(old(originalBoard[..]))|
        && originalBoard[..] == AfterReply(old(originalBoard[..])[squareId := Mark(HumanPlayer)], mode, k)
    {
      accepted := originalBoard[squareId].Num?;
      if !accepted {
        return;
      }
      if mode == PvP {
        TwoPlayerMove(squareId);
      } else {
        ComputerGameMove(squareId, k);
      }
    }

    /** The two-player branch of turnClick on an empty cell. */
    method TwoPlayerMove(squareId: int)
      requires Valid() && mode == PvP && 0 <= squareId < 9 && originalBoard[squareId].Num?
      modifies this, originalBoard
      ensures Valid() && originalBoard == old(originalBoard) && mode == old(mode)
      ensures originalBoard[..] == old(originalBoard[..])[squareId := Mark(if old(turnCount) % 2 == 1 then O else X)]
      ensures turnCount == old(turnCount) + 1
    {
      ghost var b := originalBoard[..];
      ghost var t := turnCount;
      var currentPlayer := X;
      if turnCount % 2 == 1 {
        currentPlayer := O;
      }
      ParityCounts(b, squareId, t, currentPlayer);
      var _ := Turn(squareId, currentPlayer);
      turnCount := turnCount + 1;
    }

    /** The branch of turnClick against the computer, on an empty cell: the
        human's move, then the computer's reply unless the board is full. */
    method ComputerGameMove(squareId: int, k: nat)
      requires Valid() && mode != PvP && 0 <= squareId < 9 && originalBoard[squareId].Num?
      requires k == 0 || k + 1 < |EmptySquares(originalBoard[..])|
      modifies originalBoard
      ensures Valid()
      ensures |EmptySquares(old(originalBoard[..])[squareId := Mark(HumanPlayer)])| + 1 == |EmptySquares(old(originalBoard[..]))|
      ensures originalBoard[..] == AfterReply(old(originalBoard[..])[squareId := Mark(HumanPlayer)], mode, k)
    {
      PlaceShrinks(originalBoard[..], squareId, HumanPlayer);
      var _ := Turn(squareId, HumanPlayer);
      if !IsTie(originalBoard[..]) {
        var spot := BestSpot(k);
        if spot.Some? {
          var _ := Turn(spot.value, AiPlayer);
        }
      }
    }
  }


  /** One accepted two-player move keeps the mark counts in step with the
      turn counter. */
  lemma ParityCounts(b: Board, s: int, t: nat, p: Player)
    requires 0 <= s < |b| && b[s].Num?
    requires Count(b, X) == (t + 1) / 2 && Count(b, O) == t / 2
    requires p == if t % 2 == 1 then O else X
    ensures Count(b[s := Mark(p)], X) == (t + 2) / 2
    ensures Count(b[s := Mark(p)], O) == (t + 1) / 2
  {
    CountPlace(b, s, p, X);
    CountPlace(b, s, p, O);
  }
}
