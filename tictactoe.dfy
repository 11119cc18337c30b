/**
 * The tic-tac-toe player's operations as the program writes them: scans of
 * the board with counters and nested loops, copies of the board with one
 * square written, and the one-ply move chooser. Each method is proved to
 * compute the corresponding function of module TicTacToeRules.
 */
module TicTacToe {
  import opened Options
  import R = TicTacToeRules

  /** Whose turn it is, from the number of X and O marks on the board. */
  method Player(b: R.Board) returns (p: R.Mark)
    requires R.ValidBoard(b)
    ensures p == R.Player(b)
  {
    var x, o := 0, 0;
    for i := 0 to 3
      invariant x == R.Occurrences(R.Squares(b)[..3 * i], R.X)
      invariant o == R.Occurrences(R.Squares(b)[..3 * i], R.O)
    {
      for j := 0 to 3
        invariant x == R.Occurrences(R.Squares(b)[..3 * i + j], R.X)
        invariant o == R.Occurrences(R.Squares(b)[..3 * i + j], R.O)
      {
        R.SquareAt(b, i, j);
        R.OccurrencesStep(R.Squares(b), 3 * i + j, R.X);
        R.OccurrencesStep(R.Squares(b), 3 * i + j, R.O);
        if b[i][j] == R.X {
          x := x + 1;
        } else if b[i][j] == R.O {
          o := o + 1;
        }
      }
    }
    assert R.Squares(b)[..9] == R.Squares(b);
    if o < x {
      return R.O;
    }
    return R.X;
  }

  /** The empty squares, collected row by row. */
  method Actions(b: R.Board) returns (acts: seq<R.Action>)
    requires R.ValidBoard(b)
    ensures acts == R.Actions(b)
  {
    acts := [];
    var i := 0;
    while i < 3
      invariant 0 <= i <= 3
      invariant acts == R.EmptyBefore(b, 3 * i)
    {
      var j := 0;
      while j < 3
        invariant 0 <= j <= 3
        invariant acts == R.EmptyBefore(b, 3 * i + j)
      {
        R.SquareAt(b, i, j);
        assert R.SquareOf(3 * i + j) == (i, j);
        if b[i][j] == R.Empty {
          acts := acts + [(i, j)];
        }
        j := j + 1;
      }
      i := i + 1;
    }
  }

  /** A copy of the board with `m` written on the square the scan finds equal to `a`. */
  method Place(b: R.Board, a: R.Action, m: R.Mark) returns (r: R.Board)
    requires R.ValidBoard(b)
    ensures r == R.Play(b, a, m)
  {
    r := b;
    var i := 0;
    while i < 3
      invariant 0 <= i <= 3
      invariant r == if R.OnBoard(a) && a.0 < i then R.Play(b, a, m) else b
    {
      var j := 0;
      while j < 3
        invariant 0 <= j <= 3
        invariant r == if R.OnBoard(a) && (a.0 < i || (a.0 == i && a.1 < j)) then R.Play(b, a, m) else b
      {
        if a.0 == i && a.1 == j {
          r := r[i := r[i][j := m]];
        }
        j := j + 1;
      }
      i := i + 1;
    }
  }

  /** The board after the player to move plays `a`. */
  method Result(b: R.Board, a: R.Action) returns (r: R.Board)
    requires R.ValidBoard(b)
    ensures r == R.Result(b, a)
  {
    var p := Player(b);
    r := Place(b, a, p);
  }

  /** Checks the eight lines for X, then for O. */
  method Winner(b: R.Board) returns (w: R.Mark)
    requires R.ValidBoard(b)
    ensures w == R.Winner(b)
  {
    var i := 0;
    var check := R.X;
    while i < 2
      invariant 0 <= i <= 2
      invariant check == if i == 0 then R.X else R.O
      invariant i > 0 ==> !R.HasLine(b, R.X)
      invariant i > 1 ==> !R.HasLine(b, R.O)
    {
      if b[0][0] == check && b[0][1] == check && b[0][2] == check {
        return check;
      } else if b[1][0] == check && b[1][1] == check && b[1][2] == check {
        return check;
      } else if b[2][0] == check && b[2][1] == check && b[2][2] == check {
        return check;
      } else if b[0][0] == check && b[1][0] == check && b[2][0] == check {
        return check;
      } else if b[0][1] == check && b[1][1] == check && b[2][1] == check {
        return check;
      } else if b[0][2] == check && b[1][2] == check && b[2][2] == check {
        return check;
      } else if b[0][0] == check && b[1][1] == check && b[2][2] == check {
        return check;
      } else if b[0][2] == check && b[1][1] == check && b[2][0] == check {
        return check;
      }
      i := i + 1;
      check := R.O;
    }
    return R.Empty;
  }

  /** Over when somebody has won, or else when the count of empty squares is zero. */
  method Terminal(b: R.Board) returns (t: bool)
    requires R.ValidBoard(b)
    ensures t <==> R.Terminal(b)
  {
    var empty := 0;
    var w := Winner(b);
    if w == R.Empty {
      for i := 0 to 3
        invariant empty == R.Occurrences(R.Squares(b)[..3 * i], R.Empty)
      {
        for j := 0 to 3
          invariant empty == R.Occurrences(R.Squares(b)[..3 * i + j], R.Empty)
        {
          R.SquareAt(b, i, j);
          R.OccurrencesStep(R.Squares(b), 3 * i + j, R.Empty);
          if b[i][j] == R.Empty {
            empty := empty + 1;
          }
        }
      }
      assert R.Squares(b)[..9] == R.Squares(b);
      R.FullIffNoEmpty(b);
      if empty == 0 {
        return true;
      }
      return false;
    }
    return true;
  }

  /** 1 when X has a line, -1 when O has one and X has not, 0 otherwise. */
  method Utility(b: R.Board) returns (u: int)
    requires R.ValidBoard(b)
    ensures u == 1 <==> R.HasLine(b, R.X)
    ensures u == -1 <==> !R.HasLine(b, R.X) && R.HasLine(b, R.O)
    ensures u == 0 <==> !R.HasLine(b, R.X) && !R.HasLine(b, R.O)
  {
    var w := Winner(b);
    if w == R.X {
      return 1;
    } else if w == R.O {
      return -1;
    }
    return 0;
  }

  /**
   * One step of the chooser's scan: whether playing `a` wins now for
   * `current`, the player to move, and, when it does not, whether the
   * opponent playing `a` instead would give somebody a line.
   */
  method TryMove(b: R.Board, current: R.Mark, a: R.Action) returns (wins: bool, blocks: bool)
    requires R.ValidBoard(b) && current == R.Player(b)
    ensures wins == R.Winning(b, current)(a)
    ensures !wins ==> blocks == R.Blocking(b, current)(a)
  {
    var tempBoard := Result(b, a);
    var currentPlayerWin := Winner(tempBoard);
    if currentPlayerWin == current {
      return true, false;
    }
    var newBoard := Place(b, a, if current == R.X then R.O else R.X);
    var otherPlayerWin := Winner(newBoard);
    return false, otherPlayerWin != R.Empty;
  }

  /** The chooser: nothing once the game is over, else a pick among the legal moves. */
  method Minimax(b: R.Board) returns (move: Option<R.Action>)
    requires R.ValidBoard(b)
    ensures move == R.Minimax(b)
  {
    var over := Terminal(b);
    if over {
      return None;
    }
    var current := Player(b);
    var moves := Actions(b);
    R.NotTerminalHasMove(b);
    move := ChooseAmong(b, current, moves);
  }

  /**
   * One pass over the legal moves looking for a move that wins now (returned
   * at once) and for squares where the opponent would win (the last one kept),
   * then the centre, a corner or the first free square.
   */
  method ChooseAmong(b: R.Board, current: R.Mark, moves: seq<R.Action>) returns (move: Option<R.Action>)
    requires R.ValidBoard(b) && current == R.Player(b) && |moves| > 0
    ensures move == R.ChooseBy(moves, R.Winning(b, current), R.Blocking(b, current))
  {
    ghost var winning, blocking := R.Winning(b, current), R.Blocking(b, current);
    var i := 0;
    var moveLen := |moves|;
    var saveOtherWin: Option<R.Action> := None;
    var middle: Option<R.Action> := None;
    while i < moveLen
      invariant 0 <= i <= moveLen
      invariant R.FirstWhere(moves, winning, 0) == R.FirstWhere(moves, winning, i)
      invariant saveOtherWin == R.LastWhere(moves, blocking, i)
      invariant middle == if (1, 1) in moves[..i] then Some((1, 1)) else None
    {
      assert moves[..i + 1] == moves[..i] + [moves[i]];
      if moves[i].0 == 1 && moves[i].1 == 1 {
        middle := Some(moves[i]);
      }
      var wins, blocks := TryMove(b, current, moves[i]);
      R.WhereStep(moves, winning, i);
      R.WhereStep(moves, blocking, i);
      if wins {
        return Some(moves[i]);
      } else if blocks {
        saveOtherWin := Some(moves[i]);
      }
      i := i + 1;
    }
    assert moves[..i] == moves;
    if saveOtherWin != None {
      return saveOtherWin;
    }
    move := Fallback(moves, middle);
  }

  /**
   * The chooser's last resort: the centre when it is free and two marks are
   * down, else the first free corner, else the first free square.
   */
  method Fallback(moves: seq<R.Action>, middle: Option<R.Action>) returns (move: Option<R.Action>)
    requires |moves| > 0
    requires middle == if (1, 1) in moves then Some((1, 1)) else None
    ensures move == if |moves| < 8 && (1, 1) in moves then Some((1, 1))
      else if R.FirstWhere(moves, R.IsCorner, 0).Some? then R.FirstWhere(moves, R.IsCorner, 0)
      else Some(moves[0])
  {
    var moveLen := |moves|;
    var i := 0;
    while i < moveLen
      invariant 0 <= i <= moveLen
      invariant R.FirstWhere(moves, R.IsCorner, 0) == R.FirstWhere(moves, R.IsCorner, i)
      invariant i > 0 ==> !(moveLen < 8 && middle != None)
    {
      if moveLen < 8 && middle != None {
        return middle;
      } else if moves[i].0 == 0 && moves[i].1 == 0 {
        return Some(moves[i]);
      } else if moves[i].0 == 0 && moves[i].1 == 2 {
        return Some(moves[i]);
      } else if moves[i].0 == 2 && moves[i].1 == 0 {
        return Some(moves[i]);
      } else if moves[i].0 == 2 && moves[i].1 == 2 {
        return Some(moves[i]);
      }
      i := i + 1;
    }
    return Some(moves[0]);
  }
}
