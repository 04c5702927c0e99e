/** The computer's move selection: the minimax search, which explores the
    game tree on one shared board by writing a mark and restoring the cell,
    and the easy-mode pick of a random empty square. */
module MoveSelector {
  import opened BoardModel

  /** What minimax returns: a terminal position carries only a score; an
      inner node carries the chosen cell and that child's score. */
  datatype Scored = Scored(index: Option<int>, score: int)

  /** The side to move after `player`. */
  function Other(player: Player): (q: Player)
    ensures q != player
  {
    if player == AiPlayer then HumanPlayer else AiPlayer
  }

  /** The side to move is checked first (-10), then the computer (20); a
      position with no empty square left scores 0. */
  predicate Terminal(b: Board, player: Player)
  {
    WinOf(b, player).Some? || WinOf(b, AiPlayer).Some? || |EmptySquares(b)| == 0
  }

  /** x is strictly better than best for the maximising (computer) or the
      minimising (human) side. */
  predicate Improves(maximize: bool, x: int, best: int)
  {
    if maximize then x > best else x < best
  }

  /** The position of the first best score: scanning left to right and
      keeping a candidate only when it is strictly better. */
  function FirstBest(scores: seq<int>, maximize: bool): (k: nat)
    requires |scores| > 0
    ensures k < |scores|
    ensures forall j :: 0 <= j < |scores| ==> !Improves(maximize, scores[j], scores[k])
    ensures forall j :: 0 <= j < k ==> Improves(maximize, scores[k], scores[j])
  {
    if |scores| == 1 then 0
    else
      var n := |scores| - 1;
      var k := FirstBest(scores[..n], maximize);
      assert forall j :: 0 <= j < n ==> scores[..n][j] == scores[j];
      if Improves(maximize, scores[n], scores[k]) then n else k
  }

  /** The score of the game after `player` marks empty cell s. */
  function ChildScore(b: Board, player: Player, s: int): (r: int)
    requires WellNumbered(b) && 0 <= s < |b| && b[s].Num?
    ensures r in {-10, 0, 20}
    decreases |EmptySquares(b)|, 0, 0
  {
    PlaceShrinks(b, s, player);
    MinimaxOf(b[s := Mark(player)], Other(player)).score
  }

  /** The child scores of the empty cells in spots, in the same order (the
      scores gathered in the `moves` list). */
  function ScoresOf(b: Board, player: Player, spots: seq<int>): (r: seq<int>)
    requires WellNumbered(b)
    requires forall j :: 0 <= j < |spots| ==> 0 <= spots[j] < |b| && b[spots[j]].Num?
    ensures |r| == |spots|
    ensures forall j :: 0 <= j < |spots| ==> r[j] == ChildScore(b, player, spots[j])
    decreases |EmptySquares(b)|, 0, |spots|
  {
    if spots == [] then []
    else
      var n := |spots| - 1;
      ScoresOf(b, player, spots[..n]) + [ChildScore(b, player, spots[n])]
  }

  /** The value minimax computes for `player` to move on board b. Its score
      is one of the three terminal scores, and a chosen cell is always an
      empty one, named by its index. */
  function MinimaxOf(b: Board, player: Player): (r: Scored)
    requires WellNumbered(b)
    ensures r.score in {-10, 0, 20}
    ensures r.index.Some? ==> 0 <= r.index.value < |b| && b[r.index.value] == Num(r.index.value)
    decreases |EmptySquares(b)|, 1
  {
    var spots := EmptySquares(b);
    if WinOf(b, player).Some? then Scored(None, -10)
    else if WinOf(b, AiPlayer).Some? then Scored(None, 20)
    else if |spots| == 0 then Scored(None, 0)
    else
      EmptySquaresAreEmptyCells(b);
      var scores := ScoresOf(b, player, spots);
      var k := FirstBest(scores, player == AiPlayer);
      Scored(Some(spots[k]), scores[k])
  }

  // ---------------------------------------------------------------------
  // Properties of the search

  /** Every score is -10, 0 or 20 (the lemma form of MinimaxOf's range, for
      the search's proof to call on each child), no cell is chosen exactly
      at a terminal position, and the three terminal tests decide the score
      in this order: the side to move holding a line, then the computer
      holding a line, then a full board. */
  lemma MinimaxScore(b: Board, player: Player)
    requires WellNumbered(b)
    ensures MinimaxOf(b, player).score in {-10, 0, 20}
    ensures MinimaxOf(b, player).index.None? <==> Terminal(b, player)
    ensures WinOf(b, player).Some? ==> MinimaxOf(b, player).score == -10
    ensures WinOf(b, player).None? && WinOf(b, AiPlayer).Some? ==> MinimaxOf(b, player).score == 20
    ensures !(WinOf(b, player).Some? || WinOf(b, AiPlayer).Some?) && |EmptySquares(b)| == 0 ==>
      MinimaxOf(b, player).score == 0
  {
  }

  /** On a position that is not terminal, minimax chooses an empty cell
      whose child score is the best for the side to move (the largest for
      the computer, the smallest for the human), and no empty cell before
      it reaches that score. */
  lemma MinimaxChoice(b: Board, player: Player)
    requires WellNumbered(b) && !Terminal(b, player)
    ensures MinimaxOf(b, player).index.Some?
    ensures var s := MinimaxOf(b, player).index.value;
      && 0 <= s < |b| && b[s] == Num(s)
      && MinimaxOf(b, player).score == ChildScore(b, player, s)
    ensures forall t :: 0 <= t < |b| && b[t].Num? ==>
      if player == AiPlayer then ChildScore(b, player, t) <= MinimaxOf(b, player).score
      else ChildScore(b, player, t) >= MinimaxOf(b, player).score
    ensures forall t :: 0 <= t < MinimaxOf(b, player).index.value && b[t].Num? ==>
      if player == AiPlayer then ChildScore(b, player, t) < MinimaxOf(b, player).score
      else ChildScore(b, player, t) > MinimaxOf(b, player).score
  {
    var spots := EmptySquares(b);
    EmptySquaresAreEmptyCells(b);
    var scores := ScoresOf(b, player, spots);
    var k := FirstBest(scores, player == AiPlayer);
    var r := MinimaxOf(b, player);
    assert r == Scored(Some(spots[k]), scores[k]);
    ChoiceAmongSpots(b, player, spots, scores, k);
  }

  /** The first-best position among the child scores of the empty squares,
      read back in terms of cells. */
  lemma ChoiceAmongSpots(b: Board, player: Player, spots: seq<int>, scores: seq<int>, k: nat)
    requires WellNumbered(b) && spots == EmptySquares(b)
    requires forall j :: 0 <= j < |spots| ==> 0 <= spots[j] < |b| && b[spots[j]] == Num(spots[j])
    requires forall j, j' :: 0 <= j < j' < |spots| ==> spots[j] < spots[j']
    requires forall i :: 0 <= i < |b| ==> (b[i].Num? <==> i in spots)
    requires |scores| == |spots| && k < |spots|
    requires forall j :: 0 <= j < |spots| ==> scores[j] == ChildScore(b, player, spots[j])
    requires forall j :: 0 <= j < |scores| ==> !Improves(player == AiPlayer, scores[j], scores[k])
    requires forall j :: 0 <= j < k ==> Improves(player == AiPlayer, scores[k], scores[j])
    ensures forall t :: 0 <= t < |b| && b[t].Num? ==> !Improves(player == AiPlayer, ChildScore(b, player, t), scores[k])
    ensures forall t :: 0 <= t < spots[k] && b[t].Num? ==> Improves(player == AiPlayer, scores[k], ChildScore(b, player, t))
  {
    forall t | 0 <= t < |b| && b[t].Num?
      ensures !Improves(player == AiPlayer, ChildScore(b, player, t), scores[k])
      ensures t < spots[k] ==> Improves(player == AiPlayer, scores[k], ChildScore(b, player, t))
    {
      assert t in spots;
      var j :| 0 <= j < |spots| && spots[j] == t;
      assert scores[j] == ChildScore(b, player, t);
      if t < spots[k] {
        assert j < k;
      }
    }
  }

  /** When neither side holds a line and the computer can complete one by
      marking s, that child scores 20, the search for the computer scores
      20, and it chooses s or an earlier empty cell. */
  lemma ImmediateWin(b: Board, s: int)
    requires WellNumbered(b) && 0 <= s < |b| && b[s].Num?
    requires WinOf(b, AiPlayer).None? && WinOf(b, HumanPlayer).None?
    requires WinOf(b[s := Mark(AiPlayer)], AiPlayer).Some?
    ensures ChildScore(b, AiPlayer, s) == 20
    ensures MinimaxOf(b, AiPlayer).score == 20
    ensures MinimaxOf(b, AiPlayer).index.Some? && MinimaxOf(b, AiPlayer).index.value <= s
  {
    var b' := b[s := Mark(AiPlayer)];
    OtherMarkAddsNoLine(b, s, HumanPlayer, AiPlayer);
    PlaceShrinks(b, s, AiPlayer);
    MinimaxScore(b', HumanPlayer);
    assert !Terminal(b, AiPlayer) by {
      assert s in EmptySquares(b);
    }
    MinimaxChoice(b, AiPlayer);
    MinimaxScore(b, AiPlayer);
  }

  /** When the first empty cell completes a line for the computer (and
      neither side holds one yet), the computer's search takes that cell. */
  lemma WinOnFirstEmptyCell(b: Board, s: int)
    requires WellNumbered(b) && 0 <= s < |b| && b[s].Num?
    requires forall t :: 0 <= t < s ==> b[t].Mark?
    requires WinOf(b, AiPlayer).None? && WinOf(b, HumanPlayer).None?
    requires WinOf(b[s := Mark(AiPlayer)], AiPlayer).Some?
    ensures MinimaxOf(b, AiPlayer) == Scored(Some(s), 20)
  {
    ImmediateWin(b, s);
    var r := MinimaxOf(b, AiPlayer);
    assert !Terminal(b, AiPlayer);
    MinimaxChoice(b, AiPlayer);
    var t := r.index.value;
    assert b[t].Num? && t <= s;
    assert t == s;
  }

  /** When exactly one empty cell is left and the position is not terminal,
      the search plays it and takes its child's score. */
  lemma OnlyMove(b: Board, player: Player, s: int)
    requires WellNumbered(b) && EmptySquares(b) == [s]
    requires WinOf(b, player).None? && WinOf(b, AiPlayer).None?
    ensures 0 <= s < |b| && b[s] == Num(s)
    ensures MinimaxOf(b, player) == Scored(Some(s), ChildScore(b, player, s))
  {
    EmptySquaresAreEmptyCells(b);
    assert EmptySquares(b)[0] == s;
    MinimaxChoice(b, player);
    var t := MinimaxOf(b, player).index.value;
    assert t in EmptySquares(b);
  }

  /** With two empty cells s < t whose replies score the same, the search
      plays the first, s. */
  lemma TieGoesToFirstOfTwo(b: Board, player: Player, s: int, t: int)
    requires WellNumbered(b) && EmptySquares(b) == [s, t]
    requires 0 <= s < |b| && b[s].Num? && 0 <= t < |b| && b[t].Num?
    requires WinOf(b, player).None? && WinOf(b, AiPlayer).None?
    requires ChildScore(b, player, s) == ChildScore(b, player, t)
    ensures MinimaxOf(b, player) == Scored(Some(s), ChildScore(b, player, s))
  {
    EmptySquaresAreEmptyCells(b);
    assert EmptySquares(b)[0] == s && EmptySquares(b)[1] == t;
    MinimaxChoice(b, player);
    var c := MinimaxOf(b, player).index.value;
    assert c in EmptySquares(b);
    assert c == s;
  }

  // ---------------------------------------------------------------------
  // The search on the shared board

  /** minimax(newBoard, player): the search runs on the caller's array.
      After the three terminal tests it scores every empty square (see
      ScoreMoves) and picks the first strictly best one (see PickBest). The
      empty squares are taken from newBoard itself; the game always passes
      its own board, so they are the empty squares of the game board. */
  method Minimax(newBoard: array<Cell>, player: Player) returns (result: Scored)
    requires WellNumbered(newBoard[..])
    modifies newBoard
    ensures newBoard[..] == old(newBoard[..])
    ensures result == MinimaxOf(old(newBoard[..]), player)
    decreases |EmptySquares(newBoard[..])|, 1
  {
    ghost var b := newBoard[..];
    var availableSpots := EmptySquares(newBoard[..]);
    var ownWin := CheckWin(newBoard, player);
    if ownWin.Some? {
      return Scored(None, -10);
    }
    var aiWin := CheckWin(newBoard, AiPlayer);
    if aiWin.Some? {
      return Scored(None, 20);
    } else if |availableSpots| == 0 {
      return Scored(None, 0);
    }
    EmptySquaresAreEmptyCells(b);
    ghost var scores := ScoresOf(b, player, availableSpots);
    var moves := ScoreMoves(newBoard, player, availableSpots);
    forall j | 0 <= j < |moves| ensures -10000 < moves[j].score < 10000 {
      PlaceShrinks(b, availableSpots[j], player);
      MinimaxScore(b[availableSpots[j] := Mark(player)], Other(player));
    }
    var bestMove := PickBest(moves, player == AiPlayer);
    FirstBestUnique(scores, player == AiPlayer, bestMove);
    result := moves[bestMove];
  }

  /** The loop of minimax over the empty squares: for each one, write the
      mover's mark, search the position with the other side to move, write
      the cell's old number back, and record the cell with the child's
      score. The array is the same on return. */
  method ScoreMoves(newBoard: array<Cell>, player: Player, availableSpots: seq<int>) returns (moves: seq<Scored>)
    requires WellNumbered(newBoard[..])
    requires forall j :: 0 <= j < |availableSpots| ==>
      0 <= availableSpots[j] < newBoard.Length && newBoard[availableSpots[j]] == Num(availableSpots[j])
    modifies newBoard
    ensures newBoard[..] == old(newBoard[..])
    ensures |moves| == |availableSpots|
    ensures forall j :: 0 <= j < |moves| ==>
      moves[j] == Scored(Some(availableSpots[j]), ChildScore(old(newBoard[..]), player, availableSpots[j]))
    decreases |EmptySquares(newBoard[..])|, 0
  {
    ghost var b := newBoard[..];
    moves := [];
    var i := 0;
    while i < |availableSpots|
      invariant 0 <= i <= |availableSpots|
      invariant newBoard[..] == b
      invariant |moves| == i
      invariant forall j :: 0 <= j < i ==>
        moves[j] == Scored(Some(availableSpots[j]), ChildScore(b, player, availableSpots[j]))
    {
      var spot := availableSpots[i];
      var index := newBoard[spot].n;
      newBoard[spot] := Mark(player);
      PlaceShrinks(b, spot, player);
      var child := Minimax(newBoard, Other(player));
      newBoard[spot] := Num(index);
      assert newBoard[..] == b;
      moves := moves + [Scored(Some(index), child.score)];
      i := i + 1;
    }
  }

  /** The selection loops of minimax: start from the sentinel -10000 (for
      the computer) or 10000 (for the human) and take a move only when its
      score is strictly better, so the first best move wins. */
  method PickBest(moves: seq<Scored>, maximize: bool) returns (bestMove: nat)
    requires |moves| > 0
    requires forall j :: 0 <= j < |moves| ==> -10000 < moves[j].score < 10000
    ensures bestMove < |moves|
    ensures forall j :: 0 <= j < |moves| ==> !Improves(maximize, moves[j].score, moves[bestMove].score)
    ensures forall j :: 0 <= j < bestMove ==> Improves(maximize, moves[bestMove].score, moves[j].score)
  {
    var bestScore := if maximize then -10000 else 10000;
    var best: Option<nat> := None;
    var i := 0;
    while i < |moves|
      invariant 0 <= i <= |moves|
      invariant i == 0 <==> best == None
      invariant i == 0 ==> bestScore == if maximize then -10000 else 10000
      invariant best.Some? ==> best.value < i && bestScore == moves[best.value].score
      invariant best.Some? ==> forall j :: 0 <= j < i ==> !Improves(maximize, moves[j].score, bestScore)
      invariant best.Some? ==> forall j :: 0 <= j < best.value ==> Improves(maximize, bestScore, moves[j].score)
    {
      if Improves(maximize, moves[i].score, bestScore) {
        bestScore := moves[i].score;
        best := Some(i);
      }
      i := i + 1;
    }
    bestMove := best.value;
  }

  /** The two properties of FirstBest single out one position. */
  lemma FirstBestUnique(scores: seq<int>, maximize: bool, k: nat)
    requires k < |scores|
    requires forall j :: 0 <= j < |scores| ==> !Improves(maximize, scores[j], scores[k])
    requires forall j :: 0 <= j < k ==> Improves(maximize, scores[k], scores[j])
    ensures k == FirstBest(scores, maximize)
  {
    var f := FirstBest(scores, maximize);
    assert !Improves(maximize, scores[f], scores[k]);
    assert !Improves(maximize, scores[k], scores[f]);
  }

  // ---------------------------------------------------------------------
  // Easy mode

  /** The easy-mode choice: the element at position k of the empty squares,
      where k stands for the random draw (always 0 when the list is empty). */
  function RandomPick(availableSpots: seq<int>, k: nat): (r: Option<int>)
    requires k < |availableSpots| || k == 0
    ensures r.Some? <==> |availableSpots| > 0
    ensures r.Some? ==> r.value in availableSpots
  {
    if k < |availableSpots| then Some(availableSpots[k]) else None
  }

  /** On a well-numbered board with an empty square, every draw picks an
      empty cell, by its index. */
  lemma RandomPickIsEmptyCell(b: Board, k: nat)
    requires WellNumbered(b) && k < |EmptySquares(b)|
    ensures RandomPick(EmptySquares(b), k).Some?
    ensures var s := RandomPick(EmptySquares(b), k).value; 0 <= s < |b| && b[s] == Num(s)
  {
    EmptySquaresAreEmptyCells(b);
  }
}

