/** Concrete positions: what the board model and the search do on them. */
module Scenarios {
  import opened BoardModel
  import opened MoveSelector

  /** p holds all three of the cells i, j and l. */
  predicate HoldsAll(b: Board, p: Player, i: int, j: int, l: int)
  {
    Holds(b, p, i) && Holds(b, p, j) && Holds(b, p, l)
  }

  /** p holds no line, checked line by line over the eight lines. */
  lemma NoLine(b: Board, p: Player)
    requires !HoldsAll(b, p, 0, 1, 2) && !HoldsAll(b, p, 3, 4, 5) && !HoldsAll(b, p, 6, 7, 8)
    requires !HoldsAll(b, p, 0, 3, 6) && !HoldsAll(b, p, 1, 4, 7) && !HoldsAll(b, p, 2, 5, 8)
    requires !HoldsAll(b, p, 0, 4, 8) && !HoldsAll(b, p, 2, 4, 6)
    ensures WinOf(b, p) == None
  {
    forall k | 0 <= k < |WinningCombos| ensures !LineHeld(b, p, k) {
      LineHeldCells(b, p, k);
    }
  }

  /** The top row filled by one player is reported as line 0. */
  lemma TopRowIsLineZero(p: Player)
    ensures WinOf(FreshBoard()[0 := Mark(p)][1 := Mark(p)][2 := Mark(p)], p) == Some(Win(0, p))
  {
    var b := FreshBoard()[0 := Mark(p)][1 := Mark(p)][2 := Mark(p)];
    LineHeldCells(b, p, 0);
  }

  /** The position where the computer holds cells 0 and 1 and the human
      cell 3: well numbered, no line for either side, and cell 2 completes
      the top row for the computer. */
  lemma TopRowThreatFacts(b: Board)
    requires b == [Mark(X), Mark(X), Num(2), Mark(O), Num(4), Num(5), Num(6), Num(7), Num(8)]
    ensures WellNumbered(b) && WinOf(b, X).None? && WinOf(b, O).None?
    ensures WinOf(b[2 := Mark(X)], X).Some?
    ensures forall t :: 0 <= t < 2 ==> b[t].Mark?
  {
    assert WellNumbered(b);
    NoLine(b, X);
    NoLine(b, O);
    LineHeldCells(b[2 := Mark(X)], X, 0);
  }

  /** The computer holds cells 0 and 1, the human cell 3: the search takes
      cell 2 and wins. */
  lemma ComputerCompletesTopRow(b: Board)
    requires b == [Mark(X), Mark(X), Num(2), Mark(O), Num(4), Num(5), Num(6), Num(7), Num(8)]
    ensures WellNumbered(b) && MinimaxOf(b, AiPlayer) == Scored(Some(2), 20)
  {
    TopRowThreatFacts(b);
    WinOnFirstEmptyCell(b, 2);
  }

  /** With one empty cell left, the human to move, and no line for the
      computer before or after that move, the position scores 0. */
  lemma LastHumanMoveScoresZero(b: Board, s: int)
    requires WellNumbered(b) && EmptySquares(b) == [s]
    requires WinOf(b, HumanPlayer).None? && WinOf(b, AiPlayer).None?
    requires 0 <= s < |b| && WinOf(b[s := Mark(HumanPlayer)], AiPlayer).None?
    ensures MinimaxOf(b, HumanPlayer) == Scored(Some(s), 0)
  {
    OnlyMove(b, HumanPlayer, s);
    var full := b[s := Mark(HumanPlayer)];
    PlaceShrinks(b, s, HumanPlayer);
    assert EmptySquares(full) == [];
    MinimaxScore(full, AiPlayer);
  }

  /** Computer at 0: the human's last cell is 8. */
  lemma ZeroTakenCells(b: Board)
    requires b == [Mark(X), Mark(X), Mark(O), Mark(X), Mark(X), Mark(O), Mark(O), Mark(O), Num(8)]
    ensures WellNumbered(b) && EmptySquares(b) == [8]
  {
    assert WellNumbered(b);
    EmptySquaresExactly(b, [8]);
  }

  /** Computer at 0: no line yet, and cell 8 completes both 6-7-8 and 2-5-8
      for the human, reported as line 2 (6-7-8, the earlier of the two), but
      no line for the computer. */
  lemma ZeroTakenLines(b: Board)
    requires b == [Mark(X), Mark(X), Mark(O), Mark(X), Mark(X), Mark(O), Mark(O), Mark(O), Num(8)]
    ensures WinOf(b, X).None? && WinOf(b, O).None?
    ensures WinOf(b[8 := Mark(O)], X).None? && WinOf(b[8 := Mark(O)], O) == Some(Win(2, O))
  {
    NoLine(b, X);
    NoLine(b, O);
    NoLine(b[8 := Mark(O)], X);
    LineHeldCells(b[8 := Mark(O)], O, 0);
    LineHeldCells(b[8 := Mark(O)], O, 1);
    LineHeldCells(b[8 := Mark(O)], O, 2);
  }

  /** Computer at 8: the human's last cell is 0. */
  lemma EightTakenCells(b: Board)
    requires b == [Num(0), Mark(X), Mark(O), Mark(X), Mark(X), Mark(O), Mark(O), Mark(O), Mark(X)]
    ensures WellNumbered(b) && EmptySquares(b) == [0]
  {
    assert WellNumbered(b);
    EmptySquaresExactly(b, [0]);
  }

  /** Computer at 8: no line yet, and cell 0 completes no line for the
      computer. */
  lemma EightTakenLines(b: Board)
    requires b == [Num(0), Mark(X), Mark(O), Mark(X), Mark(X), Mark(O), Mark(O), Mark(O), Mark(X)]
    ensures WinOf(b, X).None? && WinOf(b, O).None?
    ensures WinOf(b[0 := Mark(O)], X).None?
  {
    NoLine(b, X);
    NoLine(b, O);
    NoLine(b[0 := Mark(O)], X);
  }

  /** The position itself: well numbered, empty cells 0 and 8, and the two
      boards the computer's replies lead to. */
  lemma ThreatCells(b: Board)
    requires b == [Num(0), Mark(X), Mark(O), Mark(X), Mark(X), Mark(O), Mark(O), Mark(O), Num(8)]
    ensures WellNumbered(b) && EmptySquares(b) == [0, 8]
    ensures b[0 := Mark(X)] == [Mark(X), Mark(X), Mark(O), Mark(X), Mark(X), Mark(O), Mark(O), Mark(O), Num(8)]
    ensures b[8 := Mark(X)] == [Num(0), Mark(X), Mark(O), Mark(X), Mark(X), Mark(O), Mark(O), Mark(O), Mark(X)]
  {
    assert WellNumbered(b);
    EmptySquaresExactly(b, [0, 8]);
  }

  /** The position itself: no line for either side. */
  lemma ThreatLines(b: Board)
    requires b == [Num(0), Mark(X), Mark(O), Mark(X), Mark(X), Mark(O), Mark(O), Mark(O), Num(8)]
    ensures WinOf(b, X).None? && WinOf(b, O).None?
  {
    NoLine(b, X);
    NoLine(b, O);
  }

  /** The human (O) threatens to complete 6-7-8 and 2-5-8, the empty cells
      are 0 and 8, and the computer (X) is to move:
        _ X O
        X X O
        O O _
      Both replies score 0: a human win made on the last empty cell is never
      seen, because the next position is searched with the computer to move,
      where only the computer's lines are tested, and a full board scores 0.
      The first of the two, cell 0, is chosen, and the human then completes
      a line on cell 8. */
  lemma SearchLeavesLastCellThreatOpen(b: Board)
    requires b == [Num(0), Mark(X), Mark(O), Mark(X), Mark(X), Mark(O), Mark(O), Mark(O), Num(8)]
    ensures WellNumbered(b) && MinimaxOf(b, AiPlayer) == Scored(Some(0), 0)
    ensures WinOf(b[0 := Mark(X)][8 := Mark(O)], O) == Some(Win(2, O))
  {
    ThreatCells(b);
    ThreatLines(b);
    var b0 := b[0 := Mark(X)];
    var b8 := b[8 := Mark(X)];
    ZeroTakenCells(b0);
    ZeroTakenLines(b0);
    LastHumanMoveScoresZero(b0, 8);
    EightTakenCells(b8);
    EightTakenLines(b8);
    LastHumanMoveScoresZero(b8, 0);
    TieGoesToFirstOfTwo(b, AiPlayer, 0, 8);
  }
}
