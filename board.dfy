/** The board model of the tic-tac-toe game: cells, the eight winning lines,
    win detection, the list of empty squares and the tie test. */
module BoardModel {

  datatype Option<+T> = None | Some(value: T)

  /** The two marks. The human plays 'O' and the computer 'X'. */
  datatype Player = X | O

  const HumanPlayer: Player := O
  const AiPlayer: Player := X

  /** A cell either still holds a number (it is empty) or holds a mark. */
  datatype Cell = Num(n: int) | Mark(p: Player)

  /** The board is an indexable sequence of cells; the game always uses nine. */
  type Board = seq<Cell>

  /** What checkWin reports: the position of the line in WinningCombos and its owner. */
  datatype Win = Win(index: nat, player: Player)

  /** The three rows, the three columns and the two diagonals, in this fixed order. */
  const WinningCombos: seq<seq<int>> :=
    [[0, 1, 2], [3, 4, 5], [6, 7, 8],
     [0, 3, 6], [1, 4, 7], [2, 5, 8],
     [0, 4, 8], [2, 4, 6]]

  /** The board a new round starts with: cell i holds the number i. */
  function FreshBoard(): (b: Board)
    ensures |b| == 9
    ensures forall i :: 0 <= i < 9 ==> b[i] == Num(i)
  {
    seq(9, i => Num(i))
  }

  /** The invariant the game keeps and the search relies on: an empty cell
      holds its own index, so the numbers on the board can be used as indices. */
  ghost predicate WellNumbered(b: Board)
  {
    forall i :: 0 <= i < |b| && b[i].Num? ==> b[i].n == i
  }

  /** Cell c exists and holds p's mark. */
  predicate Holds(b: Board, p: Player, c: int)
  {
    0 <= c < |b| && b[c] == Mark(p)
  }

  /** Every cell of line k holds p's mark. */
  predicate LineHeld(b: Board, p: Player, k: int)
    requires 0 <= k < |WinningCombos|
  {
    forall c :: c in WinningCombos[k] ==> Holds(b, p, c)
  }

  /** Each winning line has three cells, so holding it means holding those three. */
  lemma LineHeldCells(b: Board, p: Player, k: int)
    requires 0 <= k < |WinningCombos|
    ensures |WinningCombos[k]| == 3
    ensures LineHeld(b, p, k) <==>
      Holds(b, p, WinningCombos[k][0]) && Holds(b, p, WinningCombos[k][1]) && Holds(b, p, WinningCombos[k][2])
  {
    var line := WinningCombos[k];
    assert |line| == 3;
    assert line[0] in line && line[1] in line && line[2] in line;
    assert forall c :: c in line ==> c == line[0] || c == line[1] || c == line[2];
  }

  // ---------------------------------------------------------------------
  // Counting marks

  /** The number of cells holding p's mark. */
  function Count(b: Board, p: Player): nat
  {
    if b == [] then 0
    else Count(b[..|b| - 1], p) + (if b[|b| - 1] == Mark(p) then 1 else 0)
  }

  /** Writing a mark into an empty cell adds one to that player's count and
      leaves the other player's count alone. */
  lemma {:induction false} CountPlace(b: Board, s: int, p: Player, q: Player)
    requires 0 <= s < |b| && b[s].Num?
    ensures Count(b[s := Mark(p)], q) == Count(b, q) + (if p == q then 1 else 0)
  {
    var n := |b| - 1;
    var b' := b[s := Mark(p)];
    assert b'[..n] == if s == n then b[..n] else b[..n][s := Mark(p)];
    if s < n {
      CountPlace(b[..n], s, p, q);
    }
  }

  /** The last cell adds one to the total count of marks exactly when it is marked. */
  lemma MarkedLast(b: Board)
    requires b != []
    ensures var n := |b| - 1;
      Count(b, X) + Count(b, O) == Count(b[..n], X) + Count(b[..n], O) + (if b[n].Mark? then 1 else 0)
  {
    var n := |b| - 1;
    if b[n].Mark? {
      assert b[n] == Mark(b[n].p);
      assert b[n].p == X || b[n].p == O;
    }
  }

  /** If every index in S holds p's mark, p owns at least |S| cells. */
  lemma {:induction false} CountAtLeast(b: Board, p: Player, S: set<int>)
    requires forall c :: c in S ==> Holds(b, p, c)
    ensures Count(b, p) >= |S|
  {
    if b == [] {
      assert forall c :: c !in S;
      assert S == {};
    } else {
      var n := |b| - 1;
      var S' := S - {n};
      forall c | c in S' ensures Holds(b[..n], p, c) {
        assert Holds(b, p, c);
      }
      CountAtLeast(b[..n], p, S');
      if n in S {
        assert |S'| == |S| - 1;
      } else {
        assert S' == S;
      }
    }
  }

  // ---------------------------------------------------------------------
  // Empty squares and the tie test

  /** The numbers still on the board, left to right (the filter of
      emptySquares). Every number comes from an empty cell, every empty cell
      contributes its number, and the filter keeps exactly the cells that
      are not marked. */
  function EmptySquares(b: Board): (r: seq<int>)
    ensures |r| + Count(b, X) + Count(b, O) == |b|
    ensures forall v :: v in r ==> Num(v) in b
    ensures forall i :: 0 <= i < |b| && b[i].Num? ==> b[i].n in r
  {
    if b == [] then []
    else
      var n := |b| - 1;
      assert forall i :: 0 <= i < n ==> b[..n][i] == b[i];
      MarkedLast(b);
      EmptySquares(b[..n]) + (if b[n].Num? then [b[n].n] else [])
  }

  /** On a well-numbered board the empty squares are exactly the indices
      of the unmarked cells, in strictly ascending order. */
  lemma EmptySquaresAreEmptyCells(b: Board)
    requires WellNumbered(b)
    ensures forall j :: 0 <= j < |EmptySquares(b)| ==>
      0 <= EmptySquares(b)[j] < |b| && b[EmptySquares(b)[j]] == Num(EmptySquares(b)[j])
    ensures forall j, k :: 0 <= j < k < |EmptySquares(b)| ==> EmptySquares(b)[j] < EmptySquares(b)[k]
    ensures forall i :: 0 <= i < |b| ==> (b[i].Num? <==> i in EmptySquares(b))
  {
    EmptySquaresInRange(b);
    EmptySquaresAscending(b);
    var r := EmptySquares(b);
    forall i | 0 <= i < |b| ensures b[i].Num? <==> i in r {
      if i in r {
        var j :| 0 <= j < |r| && r[j] == i;
      }
    }
  }

  /** Every empty square names an unmarked cell by its index. */
  lemma {:induction false} EmptySquaresInRange(b: Board)
    requires WellNumbered(b)
    ensures forall j :: 0 <= j < |EmptySquares(b)| ==>
      0 <= EmptySquares(b)[j] < |b| && b[EmptySquares(b)[j]] == Num(EmptySquares(b)[j])
  {
    if b != [] {
      var n := |b| - 1;
      var pre := b[..n];
      WellNumberedPrefix(b);
      EmptySquaresInRange(pre);
      var r0 := EmptySquares(pre);
      var r := EmptySquares(b);
      assert r == r0 + (if b[n].Num? then [b[n].n] else []);
      forall j | 0 <= j < |r| ensures 0 <= r[j] < |b| && b[r[j]] == Num(r[j]) {
        if j < |r0| {
          assert r[j] == r0[j] && pre[r0[j]] == b[r0[j]];
        }
      }
    }
  }

  /** The empty squares come in strictly ascending order. */
  lemma {:induction false} EmptySquaresAscending(b: Board)
    requires WellNumbered(b)
    ensures forall j, k :: 0 <= j < k < |EmptySquares(b)| ==> EmptySquares(b)[j] < EmptySquares(b)[k]
  {
    if b != [] {
      var n := |b| - 1;
      var pre := b[..n];
      WellNumberedPrefix(b);
      EmptySquaresAscending(pre);
      EmptySquaresInRange(pre);
      var r0 := EmptySquares(pre);
      var r := EmptySquares(b);
      assert r == r0 + (if b[n].Num? then [b[n].n] else []);
      forall j, k | 0 <= j < k < |r| ensures r[j] < r[k] {
        if k < |r0| {
          assert r[j] == r0[j] && r[k] == r0[k];
        } else {
          assert r[j] == r0[j] < n;
        }
      }
    }
  }

  /** Dropping the last cell keeps a board well numbered. */
  lemma WellNumberedPrefix(b: Board)
    requires b != [] && WellNumbered(b)
    ensures WellNumbered(b[..|b| - 1])
  {
    var pre := b[..|b| - 1];
    forall i | 0 <= i < |pre| && pre[i].Num? ensures pre[i].n == i {
      assert pre[i] == b[i];
    }
  }

  /** Two strictly ascending lists with the same elements are equal. */
  lemma {:induction false} AscendingUnique(r: seq<int>, s: seq<int>)
    requires forall j, k :: 0 <= j < k < |r| ==> r[j] < r[k]
    requires forall j, k :: 0 <= j < k < |s| ==> s[j] < s[k]
    requires forall x :: x in r <==> x in s
    ensures r == s
  {
    assert s != [] ==> s[0] in s;
    if r != [] {
      assert r[0] in r && r[0] in s;
      assert s[0] in s && s[0] in r;
      assert r[0] == s[0];
      forall x ensures x in r[1..] <==> x in s[1..] {
        if x in r[1..] {
          assert x in r && x != r[0];
        }
        if x in s[1..] {
          assert x in s && x != s[0];
        }
      }
      AscendingUnique(r[1..], s[1..]);
      assert r == [r[0]] + r[1..] && s == [s[0]] + s[1..];
    }
  }

  /** On a well-numbered board whose unmarked cells are exactly the
      elements of the ascending list cells, the empty squares are cells. */
  lemma EmptySquaresExactly(b: Board, cells: seq<int>)
    requires WellNumbered(b)
    requires forall j, k :: 0 <= j < k < |cells| ==> cells[j] < cells[k]
    requires forall c :: c in cells ==> 0 <= c < |b|
    requires forall i :: 0 <= i < |b| ==> (b[i].Num? <==> i in cells)
    ensures EmptySquares(b) == cells
  {
    EmptySquaresAreEmptyCells(b);
    var r := EmptySquares(b);
    forall x ensures x in r <==> x in cells {
      if x in r {
        var j :| 0 <= j < |r| && r[j] == x;
      }
    }
    AscendingUnique(r, cells);
  }

  /** Placing a mark on an empty cell removes exactly one empty square and
      keeps the board well numbered; this is the measure the search shrinks. */
  lemma PlaceShrinks(b: Board, s: int, p: Player)
    requires 0 <= s < |b| && b[s].Num?
    ensures |EmptySquares(b[s := Mark(p)])| == |EmptySquares(b)| - 1
    ensures WellNumbered(b) ==> WellNumbered(b[s := Mark(p)])
  {
    CountPlace(b, s, p, X);
    CountPlace(b, s, p, O);
  }

  /** The tie test: no empty square is left. */
  function IsTie(b: Board): (r: bool)
    ensures r <==> forall i :: 0 <= i < |b| ==> b[i].Mark?
  {
    var spots := EmptySquares(b);
    assert |spots| > 0 ==> exists i :: 0 <= i < |b| && b[i] == Num(spots[0]) by {
      if |spots| > 0 {
        assert spots[0] in spots;
      }
    }
    |spots| == 0
  }

  // ---------------------------------------------------------------------
  // Win detection

  /** The indices of the cells holding p's mark, ascending (the reduce that
      starts checkWin). */
  function Plays(b: Board, p: Player): (r: seq<int>)
    ensures forall c :: c in r <==> Holds(b, p, c)
  {
    if b == [] then []
    else
      var n := |b| - 1;
      assert forall c :: Holds(b[..n], p, c) <==> Holds(b, p, c) && c < n;
      Plays(b[..n], p) + (if b[n] == Mark(p) then [n] else [])
  }

  /** Every cell of line k is among plays (the `every` test of checkWin). */
  predicate Covers(plays: seq<int>, k: int)
    requires 0 <= k < |WinningCombos|
  {
    forall c :: c in WinningCombos[k] ==> c in plays
  }

  /** The first line from position k on that p holds. */
  function FirstWinFrom(b: Board, p: Player, k: nat): (r: Option<Win>)
    requires k <= |WinningCombos|
    ensures r.Some? ==>
      && r.value.player == p && k <= r.value.index < |WinningCombos|
      && LineHeld(b, p, r.value.index)
      && forall j :: k <= j < r.value.index ==> !LineHeld(b, p, j)
    ensures r.None? ==> forall j :: k <= j < |WinningCombos| ==> !LineHeld(b, p, j)
    decreases |WinningCombos| - k
  {
    if k == |WinningCombos| then None
    else if LineHeld(b, p, k) then Some(Win(k, p))
    else FirstWinFrom(b, p, k + 1)
  }

  /** What checkWin(board, p) returns: the first line, in WinningCombos
      order, that p holds completely, or None when p holds no line. */
  function WinOf(b: Board, p: Player): (r: Option<Win>)
    ensures r.Some? ==>
      && r.value.player == p && r.value.index < |WinningCombos|
      && LineHeld(b, p, r.value.index)
      && forall j :: 0 <= j < r.value.index ==> !LineHeld(b, p, j)
    ensures r.None? <==> forall j :: 0 <= j < |WinningCombos| ==> !LineHeld(b, p, j)
  {
    FirstWinFrom(b, p, 0)
  }

  /** checkWin: collect p's cells, then scan the lines in order and stop at
      the first one all of whose cells p holds. */
  method CheckWin(board: array<Cell>, player: Player) returns (gameWon: Option<Win>)
    ensures gameWon == WinOf(board[..], player)
  {
    var plays := Plays(board[..], player);
    gameWon := None;
    var index := 0;
    while index < |WinningCombos|
      invariant 0 <= index <= |WinningCombos|
      invariant gameWon == None
      invariant FirstWinFrom(board[..], player, 0) == FirstWinFrom(board[..], player, index)
    {
      assert Covers(plays, index) <==> LineHeld(board[..], player, index);
      if Covers(plays, index) {
        gameWon := Some(Win(index, player));
        break;
      }
      index := index + 1;
    }
  }

  /** A player with fewer than three marks cannot hold a line. */
  lemma FewMarksNoWin(b: Board, p: Player)
    requires Count(b, p) < 3
    ensures WinOf(b, p) == None
  {
    if WinOf(b, p).Some? {
      LineNeedsThree(b, p, WinOf(b, p).value.index);
    }
  }

  /** The three cells of a line are distinct, so holding it means owning
      at least three cells. */
  lemma LineNeedsThree(b: Board, p: Player, k: int)
    requires 0 <= k < |WinningCombos| && LineHeld(b, p, k)
    ensures Count(b, p) >= 3
  {
    var line := WinningCombos[k];
    assert line[0] in line && line[1] in line && line[2] in line;
    var S := {line[0], line[1], line[2]};
    assert |S| == 3;
    CountAtLeast(b, p, S);
  }

  /** A writing of q's mark cannot give p a line p did not hold already. */
  lemma OtherMarkAddsNoLine(b: Board, s: int, p: Player, q: Player)
    requires 0 <= s < |b| && p != q
    requires WinOf(b, p) == None
    ensures WinOf(b[s := Mark(q)], p) == None
  {
    var b' := b[s := Mark(q)];
    forall k | 0 <= k < |WinningCombos| ensures !LineHeld(b', p, k) {
      assert !LineHeld(b, p, k);
      var c :| c in WinningCombos[k] && !Holds(b, p, c);
      assert !Holds(b', p, c);
    }
  }

  /** A player without a mark on the board has count zero. */
  lemma {:induction false} NoMarksNoCount(b: Board, p: Player)
    requires forall i :: 0 <= i < |b| ==> b[i] != Mark(p)
    ensures Count(b, p) == 0
  {
    if b != [] {
      NoMarksNoCount(b[..|b| - 1], p);
    }
  }

  /** A new round starts well numbered, with no marks and no line for
      either player. */
  lemma FreshBoardFacts()
    ensures WellNumbered(FreshBoard())
    ensures Count(FreshBoard(), X) == 0 && Count(FreshBoard(), O) == 0
    ensures WinOf(FreshBoard(), X) == None && WinOf(FreshBoard(), O) == None
  {
    var b := FreshBoard();
    NoMarksNoCount(b, X);
    NoMarksNoCount(b, O);
    FewMarksNoWin(b, X);
    FewMarksNoWin(b, O);
  }

  /** On a fresh board the empty squares are 0 to 8 in order. */
  lemma FreshBoardEmptySquares()
    ensures EmptySquares(FreshBoard()) == [0, 1, 2, 3, 4, 5, 6, 7, 8]
  {
    EmptySquaresExactly(FreshBoard(), [0, 1, 2, 3, 4, 5, 6, 7, 8]);
  }
}
