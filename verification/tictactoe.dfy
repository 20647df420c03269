/**
  The tic-tac-toe rules of the `firstapp` demo: a board of nine cells held
  row by row, and a move counter `numVez` that doubles as the turn indicator.

  The window keeps both in file-scope variables; here they are one immutable
  `Game` value, and every routine that mutated them is a function returning
  the next `Game`.
 */
module TicTacToe {

  /** The character of an empty cell. */
  const Blank: char := ' '

  /** `contadorColunas * contadorLinhas`: three columns times three rows. */
  const CellCount: nat := 9

  datatype Game = Game(board: seq<char>, numVez: int)

  /** One of the eight lines of three cells that win the game. */
  datatype Line = Line(a: nat, b: nat, c: nat)

  /** Rows, then columns, then the two diagonals, with cells numbered
      0 1 2 / 3 4 5 / 6 7 8. */
  const Lines: seq<Line> :=
    [ Line(0, 1, 2), Line(3, 4, 5), Line(6, 7, 8),
      Line(0, 3, 6), Line(1, 4, 7), Line(2, 5, 8),
      Line(0, 4, 8), Line(2, 4, 6) ]

  predicate IsMark(c: char) {
    c == 'X' || c == 'O'
  }

  /** Nine cells, each blank or holding a player's mark. */
  predicate WellFormedBoard(board: seq<char>) {
    && |board| == CellCount
    && forall i :: 0 <= i < |board| ==> board[i] == Blank || IsMark(board[i])
  }

  // ---------------------------------------------------------------------------
  // The routines of the window
  // ---------------------------------------------------------------------------

  /** `VezJogador`: X moves when the counter is even, O when it is odd.
      (C's `%` truncates where Dafny's is Euclidean, but the two agree on
      whether the remainder by 2 is zero.) */
  function Turn(g: Game): (m: char)
    ensures IsMark(m)
    ensures m == 'X' <==> g.numVez % 2 == 0
    ensures m == 'O' <==> g.numVez % 2 != 0
  {
    if g.numVez % 2 == 0 then 'X' else 'O'
  }

  /** `InformaVencedor`: the counter is decremented once and its parity
      names the winner, so an odd number of moves means X won. */
  function WinMessage(moves: int): (s: string)
    ensures s == "X Win" || s == "O Win"
    ensures s == "X Win" <==> moves % 2 == 1
  {
    var aux := moves - 1;
    if aux % 2 == 0 then "X Win" else "O Win"
  }

  /** `NovoJogoDaVelha`: every cell blank and the counter back to zero,
      whatever the game was before. */
  function NewGame(): (g: Game)
    ensures |g.board| == CellCount
    ensures forall i :: 0 <= i < |g.board| ==> g.board[i] == Blank
    ensures g.numVez == 0
  {
    Game(seq(CellCount, _ => Blank), 0)
  }

  /** `PosicaoPreenchida`: on a well-formed board a cell is filled exactly
      when it holds a player's mark. */
  function IsFilled(g: Game, i: int): (filled: bool)
    requires 0 <= i < |g.board|
    ensures WellFormedBoard(g.board) ==> (filled <==> IsMark(g.board[i]))
  {
    g.board[i] != Blank
  }

  /** `PossuiVencedor`: the eight tests of the source, one per line, each
      asking for three equal cells of which the first is not blank. */
  predicate HasWinner(board: seq<char>)
    requires |board| == CellCount
  {
    || (board[0] == board[1] && board[1] == board[2] && board[0] != Blank)
    || (board[3] == board[4] && board[4] == board[5] && board[3] != Blank)
    || (board[6] == board[7] && board[7] == board[8] && board[6] != Blank)
    || (board[0] == board[3] && board[3] == board[6] && board[0] != Blank)
    || (board[1] == board[4] && board[4] == board[7] && board[1] != Blank)
    || (board[2] == board[5] && board[5] == board[8] && board[2] != Blank)
    || (board[0] == board[4] && board[4] == board[8] && board[0] != Blank)
    || (board[2] == board[4] && board[4] == board[6] && board[2] != Blank)
  }

  /** `VezJogadorPlacar`: a win is reported before a draw, a draw only after
      the ninth move, and otherwise whose turn it is. */
  function Status(g: Game): (s: string)
    requires |g.board| == CellCount
    ensures HasWinner(g.board) ==> s == "X Win" || s == "O Win"
    ensures s == "Draw" <==> !HasWinner(g.board) && g.numVez == 9
    ensures s == "X Turn" <==> !HasWinner(g.board) && g.numVez != 9 && Turn(g) == 'X'
    ensures s == "O Turn" <==> !HasWinner(g.board) && g.numVez != 9 && Turn(g) == 'O'
  {
    var winnerTurn := g.numVez;
    if HasWinner(g.board) then WinMessage(winnerTurn)
    else if g.numVez == 9 then "Draw"
    else if g.numVez % 2 == 0 then "X Turn" else "O Turn"
  }

  /** `MarcarTabuleiro`: the current player's mark goes into cell `i` only
      if that cell is blank; the counter is not touched here. */
  function Mark(g: Game, i: int): (r: Game)
    requires 0 <= i < |g.board|
    ensures r.numVez == g.numVez
    ensures |r.board| == |g.board|
    ensures r.board[i] == if g.board[i] == Blank then Turn(g) else g.board[i]
    ensures forall j :: 0 <= j < |g.board| && j != i ==> r.board[j] == g.board[j]
  {
    if g.board[i] == Blank then g.(board := g.board[i := Turn(g)]) else g
  }

  /** A click on cell `i` in `paintUI`: the move is made, and the counter
      advanced, only on a blank cell while nobody has won. (The source joins
      the three conditions with `&`, not `&&`; none has a side effect, so the
      result is the same.) */
  function Click(g: Game, i: int): (r: Game)
    requires |g.board| == CellCount && 0 <= i < CellCount
    ensures r != g <==> !IsFilled(g, i) && !HasWinner(g.board)
    ensures r != g ==> r.numVez == g.numVez + 1 && r.board == g.board[i := Turn(g)]
    ensures HasWinner(g.board) ==> r == g
  {
    if !IsFilled(g, i) && !HasWinner(g.board) then
      var marked := Mark(g, i);
      marked.(numVez := marked.numVez + 1)
    else
      g
  }

  // ---------------------------------------------------------------------------
  // Counting marks
  // ---------------------------------------------------------------------------

  /** The number of cells of `board` that hold `c`. */
  function Count(board: seq<char>, c: char): (n: nat)
    ensures n <= |board|
  {
    if board == [] then 0
    else (if board[0] == c then 1 else 0) + Count(board[1..], c)
  }

  /** Overwriting one cell moves one unit of count from the old character
      to the new one. */
  lemma {:induction false} CountUpdate(board: seq<char>, i: nat, x: char, c: char)
    requires i < |board|
    ensures Count(board[i := x], c)
         == Count(board, c) - (if board[i] == c then 1 else 0) + (if x == c then 1 else 0)
  {
    if i == 0 {
      assert board[i := x][1..] == board[1..];
    } else {
      assert board[i := x][1..] == board[1..][i - 1 := x];
      CountUpdate(board[1..], i - 1, x, c);
    }
  }

  /** A character that appears nowhere has count zero, and conversely. */
  lemma {:induction false} CountZero(board: seq<char>, c: char)
    ensures Count(board, c) == 0 <==> forall i :: 0 <= i < |board| ==> board[i] != c
  {
    if board != [] {
      CountZero(board[1..], c);
      assert forall i :: 1 <= i < |board| ==> board[i] == board[1..][i - 1];
    }
  }

  /** On a board holding only blanks, Xs and Os, the three counts add up to
      the number of cells. */
  lemma {:induction false} CountPartition(board: seq<char>)
    requires forall i :: 0 <= i < |board| ==> board[i] == Blank || IsMark(board[i])
    ensures Count(board, 'X') + Count(board, 'O') + Count(board, Blank) == |board|
  {
    if board != [] {
      assert forall i :: 0 <= i < |board[1..]| ==> board[1..][i] == board[i + 1];
      CountPartition(board[1..]);
    }
  }

  // ---------------------------------------------------------------------------
  // The invariant of the game
  // ---------------------------------------------------------------------------

  /** Three equal non-blank cells along `l`. */
  predicate LineWon(board: seq<char>, l: Line)
    requires l.a < |board| && l.b < |board| && l.c < |board|
  {
    board[l.a] != Blank && board[l.a] == board[l.b] && board[l.b] == board[l.c]
  }

  /** The mark of the player who made the most recent move. */
  function LastMover(g: Game): char {
    if (g.numVez - 1) % 2 == 0 then 'X' else 'O'
  }

  /** Every won line belongs to the player who moved last. */
  predicate WinnerIsLastMover(g: Game)
    requires |g.board| == CellCount
  {
    forall k :: 0 <= k < |Lines| && LineWon(g.board, Lines[k]) ==> g.board[Lines[k].a] == LastMover(g)
  }

  /** What holds in every state the window can reach: the counter counts
      the marks, X is never behind O nor more than one ahead, and any win
      belongs to the last mover. */
  predicate Valid(g: Game) {
    && WellFormedBoard(g.board)
    && g.numVez == Count(g.board, 'X') + Count(g.board, 'O')
    && (Count(g.board, 'X') == Count(g.board, 'O') || Count(g.board, 'X') == Count(g.board, 'O') + 1)
    && WinnerIsLastMover(g)
  }

  /** The 8 tests of `PossuiVencedor` are exactly "some line of `Lines` is
      won". */
  lemma HasWinnerIffSomeLine(board: seq<char>)
    requires |board| == CellCount
    ensures HasWinner(board) <==> exists k :: 0 <= k < |Lines| && LineWon(board, Lines[k])
  {
    if HasWinner(board) {
      if LineWon(board, Lines[0]) {
      } else if LineWon(board, Lines[1]) {
      } else if LineWon(board, Lines[2]) {
      } else if LineWon(board, Lines[3]) {
      } else if LineWon(board, Lines[4]) {
      } else if LineWon(board, Lines[5]) {
      } else if LineWon(board, Lines[6]) {
      } else {
        assert LineWon(board, Lines[7]);
      }
    }
  }

  /** The reset leaves the game in a valid state. */
  lemma NewGameValid()
    ensures Valid(NewGame())
  {
    var g := NewGame();
    CountZero(g.board, 'X');
    CountZero(g.board, 'O');
  }

  /** A move adds one mark of the mover and keeps X level with O or one
      ahead, because X moves exactly when the counts are level. */
  lemma MoveKeepsCounts(g: Game, i: int)
    requires Valid(g) && 0 <= i < CellCount && !IsFilled(g, i) && !HasWinner(g.board)
    ensures WellFormedBoard(Click(g, i).board)
    ensures Click(g, i).numVez == Count(Click(g, i).board, 'X') + Count(Click(g, i).board, 'O')
    ensures Count(Click(g, i).board, 'X') == Count(Click(g, i).board, 'O')
         || Count(Click(g, i).board, 'X') == Count(Click(g, i).board, 'O') + 1
  {
    CountUpdate(g.board, i, Turn(g), 'X');
    CountUpdate(g.board, i, Turn(g), 'O');
  }

  /** A move on a board nobody has won can only win for the mover. */
  lemma MoveWinsForMover(g: Game, i: int)
    requires Valid(g) && 0 <= i < CellCount && !IsFilled(g, i) && !HasWinner(g.board)
    ensures WinnerIsLastMover(Click(g, i))
  {
    var r := Click(g, i);
    var m := Turn(g);
    assert LastMover(r) == m;
    HasWinnerIffSomeLine(g.board);
    forall k | 0 <= k < |Lines| && LineWon(r.board, Lines[k])
      ensures r.board[Lines[k].a] == m
    {
      assert !LineWon(g.board, Lines[k]);
    }
  }

  /** A click keeps the game valid; in particular a winning move is always
      made by the player the counter then names as last mover. */
  lemma ClickPreservesValid(g: Game, i: int)
    requires Valid(g) && 0 <= i < CellCount
    ensures Valid(Click(g, i))
  {
    if !IsFilled(g, i) && !HasWinner(g.board) {
      MoveKeepsCounts(g, i);
      MoveWinsForMover(g, i);
    }
  }

  /** The counter of a valid game is between 0 and 9. */
  lemma MoveCounterBounds(g: Game)
    requires Valid(g)
    ensures 0 <= g.numVez <= CellCount
  {
    CountPartition(g.board);
  }

  /** X is to move exactly when both players have made as many moves. */
  lemma TurnMatchesCounts(g: Game)
    requires Valid(g)
    ensures Turn(g) == 'X' <==> Count(g.board, 'X') == Count(g.board, 'O')
  {
  }

  /** A win is announced for the player who made the last move, who does
      own a winning line, while the other player owns none. */
  lemma StatusAnnouncesLastMover(g: Game)
    requires Valid(g) && HasWinner(g.board)
    ensures Status(g) == (if LastMover(g) == 'X' then "X Win" else "O Win")
    ensures exists k :: 0 <= k < |Lines| && LineWon(g.board, Lines[k]) && g.board[Lines[k].a] == LastMover(g)
    ensures forall k :: 0 <= k < |Lines| && LineWon(g.board, Lines[k]) ==> g.board[Lines[k].a] != (if LastMover(g) == 'X' then 'O' else 'X')
  {
    HasWinnerIffSomeLine(g.board);
  }

  /** "Draw" is shown exactly when the board is full and nobody has won. */
  lemma DrawIffFullWithoutWinner(g: Game)
    requires Valid(g)
    ensures Status(g) == "Draw" <==> !HasWinner(g.board) && forall i :: 0 <= i < CellCount ==> g.board[i] != Blank
  {
    CountPartition(g.board);
    CountZero(g.board, Blank);
  }

  // ---------------------------------------------------------------------------
  // Whole sessions and whole frames
  // ---------------------------------------------------------------------------

  /** What the player can do: click a cell or choose "Restart". */
  datatype Action = ClickAt(cell: nat) | Restart

  function Apply(g: Game, a: Action): (r: Game)
    requires |g.board| == CellCount
    ensures |r.board| == CellCount
  {
    match a
    case Restart => NewGame()
    case ClickAt(i) => if i < CellCount then Click(g, i) else g
  }

  function Play(g: Game, actions: seq<Action>): (r: Game)
    requires |g.board| == CellCount
    ensures |r.board| == CellCount
    decreases |actions|
  {
    if actions == [] then g else Play(Apply(g, actions[0]), actions[1..])
  }

  /** From any valid game, any sequence of clicks and restarts keeps the game
      valid, so the counter stays between 0 and 9. */
  lemma {:induction false} PlayKeepsValid(g: Game, actions: seq<Action>)
    requires Valid(g)
    ensures Valid(Play(g, actions))
    ensures 0 <= Play(g, actions).numVez <= CellCount
    decreases |actions|
  {
    if actions == [] {
      MoveCounterBounds(g);
    } else {
      var next := Apply(g, actions[0]);
      match actions[0] {
        case Restart => NewGameValid();
        case ClickAt(i) => if i < CellCount { ClickPreservesValid(g, i); }
      }
      PlayKeepsValid(next, actions[1..]);
    }
  }

  /** X completing the top row with the ninth move (X on 0 1 5 6, O on
      3 4 7 8, X to play 2): the win is announced, not a draw. */
  lemma NinthMoveWinIsAnnounced()
    ensures
      var g := Game(['X', 'X', ' ', 'O', 'O', 'X', 'X', 'O', 'O'], 8);
      && !HasWinner(g.board)
      && Status(g) == "X Turn"
      && Click(g, 2).numVez == 9
      && Status(Click(g, 2)) == "X Win"
  {
    var g := Game(['X', 'X', ' ', 'O', 'O', 'X', 'X', 'O', 'O'], 8);
    assert Click(g, 2).board == ['X', 'X', 'X', 'O', 'O', 'X', 'X', 'O', 'O'];
  }

  /** The cell of the first of the `|pending|` buttons still to be drawn:
      the buttons are drawn in cell order, so the last one is cell 8. */
  function NextCell(pending: seq<bool>): nat
    requires 0 < |pending| <= CellCount
  {
    CellCount - |pending|
  }

  /** The cell buttons still to be drawn in a frame, `pending[0]` being the
      next one: every clicked button is a `Click` on its cell. */
  function ClickFrom(g: Game, pending: seq<bool>): (r: Game)
    requires |g.board| == CellCount && |pending| <= CellCount
    ensures |r.board| == CellCount
    decreases |pending|
  {
    if pending == [] then g
    else ClickFrom(if pending[0] then Click(g, NextCell(pending)) else g, pending[1..])
  }

  /** The clicks among the buttons still to be drawn, as player actions. */
  function ClickActions(pending: seq<bool>): seq<Action>
    requires |pending| <= CellCount
    decreases |pending|
  {
    if pending == [] then []
    else (if pending[0] then [ClickAt(NextCell(pending))] else []) + ClickActions(pending[1..])
  }

  /** The buttons of a frame are the same as playing their clicks one
      after the other. */
  lemma {:induction false} ClickFromIsPlay(g: Game, pending: seq<bool>)
    requires |g.board| == CellCount && |pending| <= CellCount
    ensures ClickFrom(g, pending) == Play(g, ClickActions(pending))
    decreases |pending|
  {
    if pending != [] {
      var rest := ClickActions(pending[1..]);
      if pending[0] {
        ClickFromIsPlay(Click(g, NextCell(pending)), pending[1..]);
        assert ([ClickAt(NextCell(pending))] + rest)[1..] == rest;
      } else {
        ClickFromIsPlay(g, pending[1..]);
        assert [] + rest == rest;
      }
    }
  }

  /** A frame's clicks keep the game valid. */
  lemma ClickFromValid(g: Game, pending: seq<bool>)
    requires Valid(g) && |pending| <= CellCount
    ensures Valid(ClickFrom(g, pending))
  {
    ClickFromIsPlay(g, pending);
    PlayKeepsValid(g, ClickActions(pending));
  }

  /** On a won board, or when no pending button is clicked, the buttons
      change nothing. */
  lemma {:induction false} ClickFromFixed(g: Game, pending: seq<bool>)
    requires |g.board| == CellCount && |pending| <= CellCount
    ensures HasWinner(g.board) || (forall q :: 0 <= q < |pending| ==> !pending[q]) ==> ClickFrom(g, pending) == g
    decreases |pending|
  {
    if pending != [] {
      ClickFromFixed(g, pending[1..]);
      assert forall q :: 0 <= q < |pending[1..]| ==> pending[1..][q] == pending[q + 1];
    }
  }

  /** One cell button: a click on it marks the cell only when the cell is
      blank and nobody has won; otherwise, and without a click, nothing
      changes. */
  method PressButton(g: Game, pressed: bool, p: nat) returns (r: Game)
    requires |g.board| == CellCount && p < CellCount
    ensures r == if pressed then Click(g, p) else g
    ensures r != g <==> pressed && g.board[p] == Blank && !HasWinner(g.board)
  {
    r := g;
    if pressed && !IsFilled(g, p) && !HasWinner(g.board) {
      r := Click(g, p);
    }
  }

  /** One frame of `paintUI`: the status line is computed first, then the
      "Restart" menu item, then the nine cell buttons in order, then the
      "Restart Game" button. `clicked[p]` says whether button `p` was
      clicked in this frame. */
  method PaintFrame(g: Game, menuRestart: bool, clicked: seq<bool>, buttonRestart: bool)
      returns (status: string, r: Game)
    requires Valid(g) && |clicked| == CellCount
    ensures status == Status(g)
    ensures r == (if buttonRestart then NewGame() else ClickFrom(if menuRestart then NewGame() else g, clicked))
    ensures Valid(r)
    ensures buttonRestart ==> r == NewGame()
    ensures !menuRestart && !buttonRestart && HasWinner(g.board) ==> r == g
    ensures !menuRestart && !buttonRestart && (forall p :: 0 <= p < CellCount ==> !clicked[p]) ==> r == g
  {
    status := Status(g);
    var cur := g;
    if menuRestart {
      cur := NewGame();
    }
    var start := cur;
    var p := 0;
    while p < CellCount
      invariant 0 <= p <= CellCount && |cur.board| == CellCount
      invariant ClickFrom(cur, clicked[p..]) == ClickFrom(start, clicked)
    {
      assert clicked[p..][1..] == clicked[p + 1..];
      cur := PressButton(cur, clicked[p], p);
      p := p + 1;
    }
    if buttonRestart {
      cur := NewGame();
      NewGameValid();
    } else {
      if menuRestart {
        NewGameValid();
      }
      ClickFromValid(start, clicked);
      ClickFromFixed(start, clicked);
    }
    r := cur;
  }
}
