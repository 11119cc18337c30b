/**
 * The rules of tic-tac-toe on a 3 x 3 board and the move the one-ply chooser
 * picks, stated as functions. The loop-based operations of module TicTacToe
 * are proved to compute exactly these; the lemmas here say what they mean.
 */
module TicTacToeRules {
  import opened Options

  /** What a square holds: a mark of either player, or nothing yet. */
  datatype Mark = X | O | Empty

  /** Rows of squares; every operation expects three rows of three. */
  type Board = seq<seq<Mark>>

  /** A square (row, column). */
  type Action = (int, int)

  predicate ValidBoard(b: Board) {
    |b| == 3 && forall i :: 0 <= i < 3 ==> |b[i]| == 3
  }

  predicate OnBoard(a: Action) {
    0 <= a.0 < 3 && 0 <= a.1 < 3
  }

  /** The board where nobody has played yet. */
  function InitialState(): (b: Board)
    ensures ValidBoard(b)
    ensures forall i, j :: 0 <= i < 3 && 0 <= j < 3 ==> b[i][j] == Empty
  {
    [[Empty, Empty, Empty], [Empty, Empty, Empty], [Empty, Empty, Empty]]
  }

  // ----- Counting marks -----

  /** The squares in row-major order. */
  function Squares(b: Board): (s: seq<Mark>)
    requires ValidBoard(b)
    ensures |s| == 9
  {
    b[0] + b[1] + b[2]
  }

  /** Square (i, j) is number 3 * i + j in row-major order. */
  lemma SquareAt(b: Board, i: int, j: int)
    requires ValidBoard(b) && 0 <= i < 3 && 0 <= j < 3
    ensures Squares(b)[3 * i + j] == b[i][j]
  {
  }

  function Occurrences(s: seq<Mark>, m: Mark): nat {
    if s == [] then 0 else Occurrences(s[..|s| - 1], m) + (if s[|s| - 1] == m then 1 else 0)
  }

  /** How many squares of the board hold `m`. */
  function Count(b: Board, m: Mark): nat
    requires ValidBoard(b)
  {
    Occurrences(Squares(b), m)
  }

  /** Counting one more element of a sequence adds one exactly when it is `m`. */
  lemma OccurrencesStep(s: seq<Mark>, k: nat, m: Mark)
    requires k < |s|
    ensures Occurrences(s[..k + 1], m) == Occurrences(s[..k], m) + (if s[k] == m then 1 else 0)
  {
    assert s[..k + 1][..k] == s[..k];
  }

  /** A sequence holds `m` nowhere exactly when it holds it zero times. */
  lemma {:induction false} OccurrencesZero(s: seq<Mark>, m: Mark)
    ensures Occurrences(s, m) == 0 <==> forall k :: 0 <= k < |s| ==> s[k] != m
  {
    if s != [] {
      var t := s[..|s| - 1];
      OccurrencesZero(t, m);
      assert forall k :: 0 <= k < |t| ==> t[k] == s[k];
    }
  }

  /** No square is empty exactly when the count of empty squares is zero. */
  lemma FullIffNoEmpty(b: Board)
    requires ValidBoard(b)
    ensures Count(b, Empty) == 0 <==> forall i, j :: 0 <= i < 3 && 0 <= j < 3 ==> b[i][j] != Empty
  {
    OccurrencesZero(Squares(b), Empty);
    forall i, j | 0 <= i < 3 && 0 <= j < 3
      ensures Squares(b)[3 * i + j] == b[i][j]
    {
      SquareAt(b, i, j);
    }
    if Count(b, Empty) != 0 {
      var k :| 0 <= k < 9 && Squares(b)[k] == Empty;
      assert b[k / 3][k % 3] == Empty;
    }
  }

  // ----- Whose turn, which squares are free -----

  /** X moves first; O moves exactly when X is ahead. */
  function Player(b: Board): Mark
    requires ValidBoard(b)
  {
    if Count(b, O) < Count(b, X) then O else X
  }

  function Other(p: Mark): Mark {
    if p == X then O else X
  }

  /** The square with number `k` in row-major order. */
  function SquareOf(k: int): Action {
    (k / 3, k % 3)
  }

  /** The empty squares among the first `n` in row-major order. */
  function EmptyBefore(b: Board, n: nat): seq<Action>
    requires ValidBoard(b) && n <= 9
  {
    if n == 0 then []
    else EmptyBefore(b, n - 1) + (if Squares(b)[n - 1] == Empty then [SquareOf(n - 1)] else [])
  }

  /** The legal moves: every empty square, in row-major order. */
  function Actions(b: Board): seq<Action>
    requires ValidBoard(b)
  {
    EmptyBefore(b, 9)
  }

  /** Row-major position of a square. */
  function Rank(a: Action): int {
    3 * a.0 + a.1
  }

  /** Every collected square is on the board, before `n` and empty; they come in increasing order. */
  lemma {:induction false} EmptyBeforeSound(b: Board, n: nat)
    requires ValidBoard(b) && n <= 9
    ensures forall k :: 0 <= k < |EmptyBefore(b, n)| ==>
      var a := EmptyBefore(b, n)[k];
      OnBoard(a) && Rank(a) < n && b[a.0][a.1] == Empty
    ensures forall k, l :: 0 <= k < l < |EmptyBefore(b, n)| ==>
      Rank(EmptyBefore(b, n)[k]) < Rank(EmptyBefore(b, n)[l])
  {
    if n > 0 {
      EmptyBeforeSound(b, n - 1);
      SquareAt(b, (n - 1) / 3, (n - 1) % 3);
    }
  }

  /** Every empty square before `n` is collected. */
  lemma {:induction false} EmptyBeforeComplete(b: Board, n: nat)
    requires ValidBoard(b) && n <= 9
    ensures forall i, j :: 0 <= i < 3 && 0 <= j < 3 && 3 * i + j < n && b[i][j] == Empty ==>
      (i, j) in EmptyBefore(b, n)
  {
    if n > 0 {
      EmptyBeforeComplete(b, n - 1);
      forall i, j | 0 <= i < 3 && 0 <= j < 3 && 3 * i + j < n && b[i][j] == Empty
        ensures (i, j) in EmptyBefore(b, n)
      {
        if 3 * i + j == n - 1 {
          SquareAt(b, i, j);
          assert SquareOf(n - 1) == (i, j);
        }
      }
    }
  }

  /** As many squares are collected as there are empty squares before `n`. */
  lemma {:induction false} EmptyBeforeCount(b: Board, n: nat)
    requires ValidBoard(b) && n <= 9
    ensures |EmptyBefore(b, n)| == Occurrences(Squares(b)[..n], Empty)
  {
    if n > 0 {
      EmptyBeforeCount(b, n - 1);
      OccurrencesStep(Squares(b), n - 1, Empty);
    }
  }

  /**
   * The legal moves are exactly the empty squares, each once, in row-major
   * order; so there are as many as there are empty squares.
   */
  lemma ActionsExact(b: Board)
    requires ValidBoard(b)
    ensures forall a :: a in Actions(b) <==> OnBoard(a) && b[a.0][a.1] == Empty
    ensures forall k, l :: 0 <= k < l < |Actions(b)| ==> Rank(Actions(b)[k]) < Rank(Actions(b)[l])
    ensures |Actions(b)| == Count(b, Empty)
  {
    EmptyBeforeSound(b, 9);
    EmptyBeforeComplete(b, 9);
    EmptyBeforeCount(b, 9);
    assert Squares(b)[..9] == Squares(b);
  }

  // ----- Playing a move -----

  /** The board with `m` written on square `a`, when `a` is a square of the board. */
  function Play(b: Board, a: Action, m: Mark): (r: Board)
    requires ValidBoard(b)
    ensures ValidBoard(r)
    ensures forall i, j :: 0 <= i < 3 && 0 <= j < 3 ==> r[i][j] == if (i, j) == a then m else b[i][j]
  {
    if OnBoard(a) then b[a.0 := b[a.0][a.1 := m]] else b
  }

  /** The board after the player to move plays `a`. */
  function Result(b: Board, a: Action): Board
    requires ValidBoard(b)
  {
    Play(b, a, Player(b))
  }

  /**
   * Playing an empty square adds one mark of the player and leaves the counts
   * of the other marks alone.
   */
  lemma PlayCounts(b: Board, a: Action, m: Mark, n: Mark)
    requires ValidBoard(b) && OnBoard(a) && b[a.0][a.1] == Empty && m != Empty
    ensures Count(Play(b, a, m), n) ==
      Count(b, n) + (if n == m then 1 else 0) - (if n == Empty then 1 else 0)
  {
    var r := Play(b, a, m);
    var t := Rank(a);
    SquareAt(b, a.0, a.1);
    SquareAt(r, a.0, a.1);
    assert forall k :: 0 <= k < 9 && k != t ==> Squares(r)[k] == Squares(b)[k] by {
      forall k | 0 <= k < 9 && k != t
        ensures Squares(r)[k] == Squares(b)[k]
      {
        SquareAt(b, k / 3, k % 3);
        SquareAt(r, k / 3, k % 3);
      }
    }
    OccurrencesSplit(Squares(b), Squares(r), t, n);
  }

  /** Two sequences that differ at position `t` only differ in counts by what sits there. */
  lemma {:induction false} OccurrencesSplit(s: seq<Mark>, u: seq<Mark>, t: nat, n: Mark)
    requires |s| == |u| && t < |s|
    requires forall k :: 0 <= k < |s| && k != t ==> s[k] == u[k]
    ensures Occurrences(u, n) - (if u[t] == n then 1 else 0) == Occurrences(s, n) - (if s[t] == n then 1 else 0)
  {
    var last := |s| - 1;
    if last == t {
      assert s[..last] == u[..last];
    } else {
      OccurrencesSplit(s[..last], u[..last], t, n);
    }
  }

  /**
   * Turns alternate: on a board reached by alternate play (X has as many
   * marks as O, or one more), the player to move keeps that balance.
   */
  lemma ResultKeepsTurns(b: Board, a: Action)
    requires ValidBoard(b) && OnBoard(a) && b[a.0][a.1] == Empty
    requires Count(b, O) <= Count(b, X) <= Count(b, O) + 1
    ensures var r := Result(b, a);
      Count(r, O) <= Count(r, X) <= Count(r, O) + 1 && Player(r) == Other(Player(b))
  {
    PlayCounts(b, a, Player(b), X);
    PlayCounts(b, a, Player(b), O);
  }

  /** The first move belongs to X. */
  lemma InitialPlayer()
    ensures Player(InitialState()) == X
  {
    var b := InitialState();
    OccurrencesZero(Squares(b), X);
    assert forall k :: 0 <= k < 9 ==> Squares(b)[k] == Empty;
  }

  // ----- Winning -----

  /** Row `r` is all `m`. */
  predicate Row(b: Board, r: int, m: Mark)
    requires ValidBoard(b) && 0 <= r < 3
  {
    b[r][0] == m && b[r][1] == m && b[r][2] == m
  }

  /** Column `c` is all `m`. */
  predicate Column(b: Board, c: int, m: Mark)
    requires ValidBoard(b) && 0 <= c < 3
  {
    b[0][c] == m && b[1][c] == m && b[2][c] == m
  }

  /** One of the two diagonals is all `m`. */
  predicate Diagonal(b: Board, m: Mark)
    requires ValidBoard(b)
  {
    (b[0][0] == m && b[1][1] == m && b[2][2] == m) || (b[0][2] == m && b[1][1] == m && b[2][0] == m)
  }

  /** One of the eight lines (three rows, three columns, two diagonals) is all `m`. */
  predicate HasLine(b: Board, m: Mark)
    requires ValidBoard(b)
  {
    Row(b, 0, m) || Row(b, 1, m) || Row(b, 2, m) ||
    Column(b, 0, m) || Column(b, 1, m) || Column(b, 2, m) ||
    Diagonal(b, m)
  }

  /** X if X has a line, otherwise O if O has one, otherwise nobody. */
  function Winner(b: Board): Mark
    requires ValidBoard(b)
  {
    if HasLine(b, X) then X else if HasLine(b, O) then O else Empty
  }

  /** The game is over when someone has a line or no square is empty. */
  predicate Terminal(b: Board)
    requires ValidBoard(b)
  {
    Winner(b) != Empty || forall i, j :: 0 <= i < 3 && 0 <= j < 3 ==> b[i][j] != Empty
  }

  /** A game that is not over has a legal move. */
  lemma NotTerminalHasMove(b: Board)
    requires ValidBoard(b) && !Terminal(b)
    ensures |Actions(b)| > 0
  {
    var i, j :| 0 <= i < 3 && 0 <= j < 3 && b[i][j] == Empty;
    ActionsExact(b);
    assert (i, j) in Actions(b);
  }

  /**
   * On a board where nobody has won yet, playing one square can only give a
   * line to the one who played it.
   */
  lemma OnlyMoverCanWin(b: Board, a: Action, m: Mark)
    requires ValidBoard(b) && Winner(b) == Empty && m != Empty
    ensures Winner(Play(b, a, m)) in {Empty, m}
  {
  }

  // ----- The move chooser -----

  /** Playing `a` as `p` gives `p` a line at once (with X's lines counted first). */
  predicate WinsFor(b: Board, a: Action, p: Mark)
    requires ValidBoard(b)
  {
    Winner(Play(b, a, p)) == p
  }

  /** The opponent of `p` playing `a` would give somebody a line. */
  predicate BlocksFor(b: Board, a: Action, p: Mark)
    requires ValidBoard(b)
  {
    Winner(Play(b, a, Other(p))) != Empty
  }

  predicate IsCorner(a: Action) {
    a == (0, 0) || a == (0, 2) || a == (2, 0) || a == (2, 2)
  }

  /**
   * While the game is not over, the chooser's two tests read as "the mover
   * gets a line by playing `a`" and "the opponent would get a line there".
   */
  lemma TestsReadAsLines(b: Board, a: Action)
    requires ValidBoard(b) && !Terminal(b)
    ensures var p := Player(b);
      && (WinsFor(b, a, p) <==> HasLine(Play(b, a, p), p))
      && (BlocksFor(b, a, p) <==> HasLine(Play(b, a, Other(p)), Other(p)))
  {
    OnlyMoverCanWin(b, a, Player(b));
    OnlyMoverCanWin(b, a, Other(Player(b)));
  }

  /** The first move among `moves[i..]` that satisfies `p`. */
  function FirstWhere(moves: seq<Action>, p: Action -> bool, i: nat): Option<Action>
    requires i <= |moves|
    decreases |moves| - i
  {
    if i == |moves| then None
    else if p(moves[i]) then Some(moves[i])
    else FirstWhere(moves, p, i + 1)
  }

  /** The last move among `moves[..i]` that satisfies `p`. */
  function LastWhere(moves: seq<Action>, p: Action -> bool, i: nat): Option<Action>
    requires i <= |moves|
  {
    if i == 0 then None
    else if p(moves[i - 1]) then Some(moves[i - 1])
    else LastWhere(moves, p, i - 1)
  }

  /** The predicates the chooser searches the legal moves with, for player `p`. */
  function Winning(b: Board, p: Mark): Action -> bool {
    a => ValidBoard(b) && WinsFor(b, a, p)
  }

  function Blocking(b: Board, p: Mark): Action -> bool {
    a => ValidBoard(b) && BlocksFor(b, a, p)
  }

  /**
   * The move picked among `moves`: the first winning move, else the last
   * blocking move, else the centre once two marks are down, else the first
   * corner, else the first move.
   */
  function ChooseBy(moves: seq<Action>, wins: Action -> bool, blocks: Action -> bool): Option<Action> {
    var win := FirstWhere(moves, wins, 0);
    var block := LastWhere(moves, blocks, |moves|);
    if win.Some? then win
    else if block.Some? then block
    else if |moves| < 8 && (1, 1) in moves then Some((1, 1))
    else
      var corner := FirstWhere(moves, IsCorner, 0);
      if corner.Some? then corner
      else if |moves| > 0 then Some(moves[0])
      else None
  }

  /** The chooser's move: nothing once the game is over. */
  function Minimax(b: Board): Option<Action>
    requires ValidBoard(b)
  {
    if Terminal(b) then None
    else ChooseBy(Actions(b), Winning(b, Player(b)), Blocking(b, Player(b)))
  }

  /** Scanning one more move: the search's answer is that move, or the answer so far. */
  lemma WhereStep(moves: seq<Action>, p: Action -> bool, i: nat)
    requires i < |moves|
    ensures FirstWhere(moves, p, i) == if p(moves[i]) then Some(moves[i]) else FirstWhere(moves, p, i + 1)
    ensures LastWhere(moves, p, i + 1) == if p(moves[i]) then Some(moves[i]) else LastWhere(moves, p, i)
  {
  }

  /** FirstWhere finds nothing exactly when no move qualifies, and otherwise the first that does. */
  lemma {:induction false} FirstWhereIsFirst(moves: seq<Action>, p: Action -> bool, i: nat)
    requires i <= |moves|
    ensures FirstWhere(moves, p, i).None? <==> forall k :: i <= k < |moves| ==> !p(moves[k])
    ensures FirstWhere(moves, p, i).Some? ==>
      exists k :: i <= k < |moves| && FirstWhere(moves, p, i) == Some(moves[k]) && p(moves[k])
        && forall l :: i <= l < k ==> !p(moves[l])
    decreases |moves| - i
  {
    if i < |moves| && !p(moves[i]) {
      FirstWhereIsFirst(moves, p, i + 1);
    }
  }

  /** LastWhere finds nothing exactly when no move qualifies, and otherwise the last that does. */
  lemma {:induction false} LastWhereIsLast(moves: seq<Action>, p: Action -> bool, i: nat)
    requires i <= |moves|
    ensures LastWhere(moves, p, i).None? <==> forall k :: 0 <= k < i ==> !p(moves[k])
    ensures LastWhere(moves, p, i).Some? ==>
      exists k :: 0 <= k < i && LastWhere(moves, p, i) == Some(moves[k]) && p(moves[k])
        && forall l :: k < l < i ==> !p(moves[l])
  {
    if i > 0 && !p(moves[i - 1]) {
      LastWhereIsLast(moves, p, i - 1);
    }
  }

  /** The pick is one of the moves, and there is a pick whenever there is a move. */
  lemma ChooseByIn(moves: seq<Action>, wins: Action -> bool, blocks: Action -> bool)
    ensures ChooseBy(moves, wins, blocks).Some? <==> |moves| > 0
    ensures ChooseBy(moves, wins, blocks).Some? ==> ChooseBy(moves, wins, blocks).value in moves
  {
    FirstWhereIsFirst(moves, wins, 0);
    LastWhereIsLast(moves, blocks, |moves|);
    FirstWhereIsFirst(moves, IsCorner, 0);
  }

  /**
   * The chooser returns nothing exactly when the game is over, and otherwise
   * a legal move: an empty square of the board.
   */
  lemma MinimaxLegal(b: Board)
    requires ValidBoard(b)
    ensures Minimax(b).None? <==> Terminal(b)
    ensures Minimax(b).Some? ==> Minimax(b).value in Actions(b)
    ensures Minimax(b).Some? ==> var a := Minimax(b).value; OnBoard(a) && b[a.0][a.1] == Empty
  {
    ActionsExact(b);
    ChooseByIn(Actions(b), Winning(b, Player(b)), Blocking(b, Player(b)));
    if !Terminal(b) {
      NotTerminalHasMove(b);
    }
  }

  /** When some move satisfies `wins`, the pick is the first such move. */
  lemma ChooseByWins(moves: seq<Action>, wins: Action -> bool, blocks: Action -> bool, j: nat)
    requires j < |moves| && wins(moves[j])
    ensures exists k :: (0 <= k < |moves| && ChooseBy(moves, wins, blocks) == Some(moves[k]) && wins(moves[k])
      && forall l :: 0 <= l < k ==> !wins(moves[l]))
  {
    FirstWhereIsFirst(moves, wins, 0);
  }

  /** When no move satisfies `wins` and some satisfies `blocks`, the pick is the last of those. */
  lemma ChooseByBlocks(moves: seq<Action>, wins: Action -> bool, blocks: Action -> bool, j: nat)
    requires forall k :: 0 <= k < |moves| ==> !wins(moves[k])
    requires j < |moves| && blocks(moves[j])
    ensures exists k :: (0 <= k < |moves| && ChooseBy(moves, wins, blocks) == Some(moves[k]) && blocks(moves[k])
      && forall l :: k < l < |moves| ==> !blocks(moves[l]))
  {
    FirstWhereIsFirst(moves, wins, 0);
    LastWhereIsLast(moves, blocks, |moves|);
  }

  /**
   * When some legal move wins at once for the player to move, the chooser
   * returns the first such move in row-major order.
   */
  lemma MinimaxWins(b: Board, a: Action)
    requires ValidBoard(b) && !Terminal(b)
    requires a in Actions(b) && WinsFor(b, a, Player(b))
    ensures var moves := Actions(b);
      exists k :: 0 <= k < |moves| && Minimax(b) == Some(moves[k]) && Winner(Result(b, moves[k])) == Player(b)
        && forall l :: 0 <= l < k ==> Winner(Result(b, moves[l])) != Player(b)
  {
    var moves := Actions(b);
    var p := Player(b);
    var j :| 0 <= j < |moves| && moves[j] == a;
    assert Winning(b, p)(moves[j]);
    ChooseByWins(moves, Winning(b, p), Blocking(b, p), j);
  }

  /**
   * When no legal move wins at once but the opponent would get a line on some
   * square, the chooser takes the last such square in row-major order.
   */
  lemma MinimaxBlocks(b: Board, a: Action)
    requires ValidBoard(b) && !Terminal(b)
    requires forall a' :: a' in Actions(b) ==> !WinsFor(b, a', Player(b))
    requires a in Actions(b) && BlocksFor(b, a, Player(b))
    ensures var moves := Actions(b);
      exists k :: 0 <= k < |moves| && Minimax(b) == Some(moves[k]) && BlocksFor(b, moves[k], Player(b))
        && forall l :: k < l < |moves| ==> !BlocksFor(b, moves[l], Player(b))
  {
    var moves := Actions(b);
    var p := Player(b);
    var j :| 0 <= j < |moves| && moves[j] == a;
    assert Blocking(b, p)(moves[j]);
    assert forall k :: 0 <= k < |moves| ==> !Winning(b, p)(moves[k]);
    ChooseByBlocks(moves, Winning(b, p), Blocking(b, p), j);
  }
}
