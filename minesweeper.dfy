/**
 * The minesweeper game and its inference agent as objects that change in
 * place: `Sentence` (a constraint whose cells and count shrink as cells are
 * classified), `MinesweeperAI` (the knowledge base) and `Minesweeper` (the
 * board). Every method that changes state is proved to change it exactly as
 * the matching function of SentenceLogic or KnowledgeLogic says; what those
 * functions guarantee is proved there.
 */
module MinesweeperGame {
  import opened Options
  import opened SentenceLogic
  import K = KnowledgeLogic

  /** "Exactly `count` of `cells` are mines." */
  class Sentence {
    var cells: set<Cell>
    var count: int

    constructor (cells: set<Cell>, count: int)
      ensures Value() == Claim(cells, count)
    {
      this.cells := cells;
      this.count := count;
    }

    /** The claim this sentence makes now. */
    function Value(): Claim
      reads this
    {
      Claim(cells, count)
    }

    /** Two sentences are equal when they make the same claim. */
    function Equals(other: Sentence): (r: bool)
      reads this, other
      ensures r <==> cells == other.cells && count == other.count
    {
      Value() == other.Value()
    }

    method MarkMine(c: Cell)
      modifies this
      ensures Value() == MinedBy(old(Value()), c)
    {
      if c in cells && KnownMines(Value()).None? {
        cells := cells - {c};
        count := count - 1;
      }
    }

    method MarkSafe(c: Cell)
      modifies this
      ensures Value() == ClearedBy(old(Value()), c)
    {
      if c in cells && KnownSafes(Value()).None? {
        cells := cells - {c};
      }
    }
  }

  /** The agent: what it has played, what it knows, and the sentences it keeps. */
  class MinesweeperAI {
    const height: int
    const width: int
    var movesMade: set<Cell>
    var mines: set<Cell>
    var safes: set<Cell>
    var knowledge: seq<Sentence>

    /** The list never holds the same sentence object twice. */
    ghost predicate Valid()
      reads this`knowledge
    {
      forall i, j :: 0 <= i < j < |knowledge| ==> knowledge[i] != knowledge[j]
    }

    /** The claims of the sentences, in list order. */
    ghost function Claims(): seq<Claim>
      reads this`knowledge, knowledge
    {
      var ks := knowledge;
      seq(|ks|, k requires 0 <= k < |ks| reads ks => ks[k].Value())
    }

    /** The agent's state as a value. */
    ghost function Abstract(): K.Knowledge
      reads this, knowledge
    {
      K.Knowledge(movesMade, mines, safes, Claims())
    }

    constructor (height: int, width: int)
      ensures Valid() && this.height == height && this.width == width
      ensures Abstract() == K.Knowledge({}, {}, {}, [])
    {
      this.height := height;
      this.width := width;
      movesMade, mines, safes := {}, {}, {};
      knowledge := [];
    }

    /** Record `c` as a mine and tell every sentence. */
    method MarkMine(c: Cell)
      requires Valid()
      modifies this`mines, knowledge
      ensures Valid() && knowledge == old(knowledge)
      ensures Abstract() == K.MarkMine(old(Abstract()), c)
    {
      ghost var before := Claims();
      mines := mines + {c};
      for k := 0 to |knowledge|
        invariant mines == old(mines) + {c}
        invariant forall j :: 0 <= j < k ==> knowledge[j].Value() == MinedBy(before[j], c)
        invariant forall j :: k <= j < |knowledge| ==> knowledge[j].Value() == before[j]
      {
        knowledge[k].MarkMine(c);
      }
      assert before == old(Abstract()).sentences;
      assert Claims() == K.MarkMine(old(Abstract()), c).sentences;
    }

    /** Record `c` as safe and tell every sentence. */
    method MarkSafe(c: Cell)
      requires Valid()
      modifies this`safes, knowledge
      ensures Valid() && knowledge == old(knowledge)
      ensures Abstract() == K.MarkSafe(old(Abstract()), c)
    {
      ghost var before := Claims();
      safes := safes + {c};
      for k := 0 to |knowledge|
        invariant safes == old(safes) + {c}
        invariant forall j :: 0 <= j < k ==> knowledge[j].Value() == ClearedBy(before[j], c)
        invariant forall j :: k <= j < |knowledge| ==> knowledge[j].Value() == before[j]
      {
        knowledge[k].MarkSafe(c);
      }
      assert before == old(Abstract()).sentences;
      assert Claims() == K.MarkSafe(old(Abstract()), c).sentences;
    }

    /** `for elem in d: self.mark_mine(elem)`, visiting `d` in any order. */
    method MarkMines(d: set<Cell>)
      requires Valid()
      modifies this`mines, knowledge
      ensures Valid() && knowledge == old(knowledge)
      ensures Abstract() == K.MarkMines(old(Abstract()), d)
    {
      ghost var kb0 := Abstract();
      ghost var done: set<Cell> := {};
      K.MarkNone(kb0);
      var rest := d;
      while rest != {}
        invariant Valid() && knowledge == old(knowledge)
        invariant rest == d - done && done <= d
        invariant Abstract() == K.MarkMines(kb0, done)
        decreases rest
      {
        var e :| e in rest;
        MarkMine(e);
        K.MarkMineStep(kb0, done, e);
        rest := rest - {e};
        done := done + {e};
      }
      assert done == d;
    }

    /** `for elem in d: self.mark_safe(elem)`, visiting `d` in any order. */
    method MarkSafes(d: set<Cell>)
      requires Valid()
      modifies this`safes, knowledge
      ensures Valid() && knowledge == old(knowledge)
      ensures Abstract() == K.MarkSafes(old(Abstract()), d)
    {
      ghost var kb0 := Abstract();
      ghost var done: set<Cell> := {};
      K.MarkNone(kb0);
      var rest := d;
      while rest != {}
        invariant Valid() && knowledge == old(knowledge)
        invariant rest == d - done && done <= d
        invariant Abstract() == K.MarkSafes(kb0, done)
        decreases rest
      {
        var e :| e in rest;
        MarkSafe(e);
        K.MarkSafeStep(kb0, done, e);
        rest := rest - {e};
        done := done + {e};
      }
      assert done == d;
    }

    /**
     * The sentence of a new observation: the board cells within one row and
     * column of `cell`, scanned row by row, that are neither moved to nor
     * known safe.
     */
    method NeighbourSentence(cell: Cell, count: int) returns (s: Sentence)
      ensures fresh(s)
      ensures s.Value() == K.NeighbourClaim(Abstract(), cell, count, height, width)
    {
      s := new Sentence({}, count);
      ghost var around := K.Around(cell, height, width);
      var i := cell.0 - 1;
      var jStart := cell.1 - 1;
      var iStop := cell.0 + 2;
      var jStop := cell.1 + 2;
      if i < 0 { i := 0; }
      if jStart < 0 { jStart := 0; }
      if iStop > height { iStop := height; }
      if jStop > width { jStop := width; }
      ghost var iStart := i;
      while i < iStop
        invariant iStart <= i
        invariant s.count == count
        invariant forall p :: p in s.cells <==> p in around && p !in movesMade && p !in safes && p.0 < i
      {
        var j := jStart;
        while j < jStop
          invariant jStart <= j
          invariant s.count == count
          invariant forall p :: p in s.cells <==>
            p in around && p !in movesMade && p !in safes && (p.0 < i || (p.0 == i && p.1 < j))
        {
          if (i, j) !in movesMade && (i, j) !in safes {
            s.cells := s.cells + {(i, j)};
          }
          j := j + 1;
        }
        i := i + 1;
      }
      assert s.cells == around - movesMade - safes;
    }

    /**
     * The first step of the pass on the sentence at index `k`: when the known
     * mines among its cells account for its count, mark its other cells safe.
     */
    method ClearUnmined(k: nat)
      requires Valid() && k < |knowledge|
      modifies this`safes, knowledge
      ensures Valid() && knowledge == old(knowledge)
      ensures Abstract() == K.ClearUnmined(old(Abstract()), k)
    {
      ghost var kb0 := Abstract();
      var sentence := knowledge[k];
      if |sentence.cells| > sentence.count && sentence.count > 0 {
        var temp := sentence.cells * mines;
        if |temp| > 0 && |temp| == sentence.count {
          ghost var cells0 := sentence.cells;
          ghost var cleared: set<Cell> := {};
          K.MarkNone(kb0);
          while true
            invariant Valid() && knowledge == old(knowledge) && mines == kb0.mines
            invariant cleared <= cells0 - kb0.mines
            invariant Abstract() == K.MarkSafes(kb0, cleared)
            invariant sentence.cells == cells0 - cleared && sentence.count == kb0.sentences[k].count
            decreases |sentence.cells|
          {
            var rest := sentence.cells - temp;
            if rest == {} {
              // every cell left is a known mine
              break;
            }
            // the first cell met that is not a known mine
            var e :| e in rest;
            ghost var cellsBefore := sentence.cells;
            MarkSafe(e);
            assert Claims()[k] == sentence.Value();
            assert sentence.cells == cellsBefore - {e};
            K.MarkSafeStep(kb0, cleared, e);
            cleared := cleared + {e};
          }
          assert cleared == cells0 - kb0.mines;
        }
      }
    }

    /**
     * The second step of the pass on the sentence at index `k`: mark its cells
     * when it says "no mines" or "all mines". Marking a sentence's own cells
     * leaves that sentence unchanged, so iterating over a snapshot of them
     * visits the same cells.
     */
    method Conclude(k: nat)
      requires Valid() && k < |knowledge|
      modifies this`mines, this`safes, knowledge
      ensures Valid() && knowledge == old(knowledge)
      ensures Abstract() == K.Conclude(old(Abstract()), k)
    {
      var sentence := knowledge[k];
      assert sentence.Value() == Claims()[k];
      if |sentence.cells| > 0 && sentence.count == 0 {
        MarkSafes(sentence.cells);
      } else if |sentence.cells| == sentence.count && sentence.count > 0 {
        MarkMines(sentence.cells);
      }
    }

    /** One step of the resolution pass, on the sentence at index `k`. */
    method ResolveSentence(k: nat)
      requires Valid() && k < |knowledge|
      modifies this`mines, this`safes, knowledge
      ensures Valid() && knowledge == old(knowledge)
      ensures Abstract() == K.Resolve(old(Abstract()), k)
    {
      ClearUnmined(k);
      Conclude(k);
    }

    /**
     * What add_knowledge does with the new sentence `temp`: mark its cells at
     * once when it says "no mines" or "all mines"; otherwise append it.
     */
    method Settle(temp: Sentence)
      requires Valid() && temp !in knowledge
      modifies this`mines, this`safes, this`knowledge, knowledge
      ensures Valid() && temp.Value() == old(temp.Value())
      ensures Abstract() == K.Settle(old(Abstract()), old(temp.Value()))
      ensures knowledge == old(knowledge) || knowledge == old(knowledge) + [temp]
    {
      if temp.count == 0 {
        MarkSafes(temp.cells);
      } else if |temp.cells| == temp.count {
        MarkMines(temp.cells);
      } else {
        ghost var before := Claims();
        knowledge := knowledge + [temp];
        assert Claims() == before + [temp.Value()];
      }
    }

    /**
     * The first half of add_knowledge: mark `cell` safe and played, build the
     * sentence about its neighbours, and settle it.
     */
    method Observe(cell: Cell, count: int)
      requires Valid()
      modifies this`movesMade, this`mines, this`safes, this`knowledge, knowledge
      ensures Valid()
      ensures Abstract() == K.Observe(old(Abstract()), cell, count, height, width)
      ensures knowledge == old(knowledge)
           || (|knowledge| == |old(knowledge)| + 1 && knowledge[..|old(knowledge)|] == old(knowledge)
               && fresh(knowledge[|old(knowledge)|]))
    {
      MarkSafe(cell);
      movesMade := movesMade + {cell};
      var temp := NeighbourSentence(cell, count);
      Settle(temp);
    }

    /** The second half of add_knowledge: one resolution pass over the list, in list order. */
    method ResolvePass()
      requires Valid()
      modifies this`mines, this`safes, knowledge
      ensures Valid() && knowledge == old(knowledge)
      ensures Abstract() == K.Pass(old(Abstract()), |knowledge|)
    {
      ghost var kb := Abstract();
      for k := 0 to |knowledge|
        invariant Valid() && knowledge == old(knowledge)
        invariant Abstract() == K.Pass(kb, k)
      {
        ResolveSentence(k);
      }
    }

    /**
     * Called when the board reports that `cell` is safe and that `count` of
     * the cells around it are mines: record the move and the observation,
     * then make one resolution pass over the list of sentences.
     */
    method AddKnowledge(cell: Cell, count: int)
      requires Valid()
      modifies this`movesMade, this`mines, this`safes, this`knowledge, knowledge
      ensures Valid()
      ensures Abstract() == K.AddKnowledge(old(Abstract()), cell, count, height, width)
      ensures knowledge == old(knowledge)
           || (|knowledge| == |old(knowledge)| + 1 && knowledge[..|old(knowledge)|] == old(knowledge)
               && fresh(knowledge[|old(knowledge)|]))
    {
      Observe(cell, count);
      ResolvePass();
    }

    /** A cell known to be safe and not yet played, if there is one; the choice among several is free. */
    method MakeSafeMove() returns (move: Option<Cell>)
      ensures move.Some? ==> move.value in safes && move.value !in movesMade
      ensures move.None? <==> safes - movesMade == {}
    {
      var remain := safes - movesMade;
      if |remain| != 0 {
        var e :| e in remain;
        return Some(e);
      }
      return None;
    }

    /** A sentence whose cells `make_random_move` harvests before scanning the board. */
    ghost predicate Harvestable(k: int)
      reads this, knowledge
    {
      0 <= k < |knowledge| && knowledge[k].count > 0 && |knowledge[k].cells| - knowledge[k].count >= 3
    }

    /**
     * A move for when no safe move is known. Cells of sentences with at least
     * three more cells than mines are gathered first, but only while no mine is
     * known at all (the flag meant to skip known mines is set by any known mine);
     * when fewer than ten were gathered, every board cell that is neither a
     * known mine nor played is added. The choice among them is free.
     */
    method MakeRandomMove() returns (move: Option<Cell>)
      ensures move.Some? ==> move.value !in mines
      ensures move.Some? ==>
                (0 <= move.value.0 < height && 0 <= move.value.1 < width && move.value !in movesMade)
                || (mines == {} && exists k :: Harvestable(k) && move.value in knowledge[k].cells)
      ensures move.None? ==>
        forall i, j :: 0 <= i < height && 0 <= j < width ==> (i, j) in mines || (i, j) in movesMade
    {
      var remain: set<Cell> := {};
      for k := 0 to |knowledge|
        invariant mines != {} ==> remain == {}
        invariant forall p :: p in remain ==>
          mines == {} && exists k' :: 0 <= k' < k && Harvestable(k') && p in knowledge[k'].cells
      {
        var sentence := knowledge[k];
        if sentence.count > 0 && |sentence.cells| - sentence.count >= 3 {
          // `found` ends up 1 exactly when some mine is known, whatever the cell.
          var found := if mines == {} then 0 else 1;
          if found == 0 {
            remain := remain + sentence.cells;
          }
        }
      }
      ghost var harvested := remain;
      assert forall p :: p in harvested ==>
          mines == {} && exists k :: Harvestable(k) && p in knowledge[k].cells;
      if |remain| < 10 {
        var i := 0;
        while i < height
          invariant i == 0 || i <= height
          invariant forall p :: p in remain <==>
                      p in harvested
                      || (0 <= p.0 < i && 0 <= p.1 < width && p !in mines && p !in movesMade)
        {
          var j := 0;
          while j < width
            invariant j == 0 || j <= width
            invariant forall p :: p in remain <==>
                        p in harvested
                        || (0 <= p.0 < i && 0 <= p.1 < width && p !in mines && p !in movesMade)
                        || (p.0 == i && 0 <= p.1 < j && p !in mines && p !in movesMade)
          {
            if (i, j) !in mines && (i, j) !in movesMade {
              remain := remain + {(i, j)};
            }
            j := j + 1;
          }
          i := i + 1;
        }
      }
      if |remain| != 0 {
        var e :| e in remain;
        return Some(e);
      }
      return None;
    }
  }

  /** The board: its size, where the mines are, and the mines the player has flagged. */
  class Minesweeper {
    const height: int
    const width: int
    var board: seq<seq<bool>>
    var mines: set<Cell>
    var minesFound: set<Cell>

    /** The grid has the board's size, and a square holds a mine exactly when its cell is in `mines`. */
    ghost predicate Valid()
      reads this
    {
      && |board| == height
      && (forall i :: 0 <= i < height ==> |board[i]| == width)
      && (forall p :: p in mines ==> 0 <= p.0 < height && 0 <= p.1 < width)
      && (forall i, j :: 0 <= i < height && 0 <= j < width ==> (board[i][j] <==> (i, j) in mines))
    }

    /** A board with the mines of `layout` and none flagged. */
    constructor (height: nat, width: nat, layout: set<Cell>)
      requires forall p :: p in layout ==> 0 <= p.0 < height && 0 <= p.1 < width
      ensures Valid() && this.height == height && this.width == width
      ensures mines == layout && minesFound == {}
    {
      this.height := height;
      this.width := width;
      board := seq(height, i => seq(width, j => (i, j) in layout));
      mines := layout;
      minesFound := {};
    }

    /** Whether `cell` holds a mine, read off the grid. */
    function IsMine(cell: Cell): (r: bool)
      reads this
      requires Valid() && 0 <= cell.0 < height && 0 <= cell.1 < width
      ensures r <==> cell in mines
    {
      board[cell.0][cell.1]
    }

    /** The number of mines within one row and column of `cell`, the cell itself not included. */
    method NearbyMines(cell: Cell) returns (count: nat)
      requires Valid()
      ensures count == |(K.Around(cell, height, width) - {cell}) * mines|
    {
      ghost var near := (K.Around(cell, height, width) - {cell}) * mines;
      ScanBounds(near, cell, height, width, mines);
      ghost var counted: set<Cell> := {};
      count := 0;
      for i := cell.0 - 1 to cell.0 + 2
        invariant count == |counted|
        invariant counted == ScannedBefore(near, i, cell.1 - 1)
      {
        for j := cell.1 - 1 to cell.1 + 2
          invariant count == |counted|
          invariant counted == ScannedBefore(near, i, j)
        {
          ScanVisit(near, cell, height, width, mines, i, j);
          if (i, j) == cell {
            continue;
          }
          if 0 <= i < height && 0 <= j < width {
            if board[i][j] {
              counted := counted + {(i, j)};
              count := count + 1;
            }
          }
        }
        ScanRow(near, i, cell.1 - 1, cell.1 + 2);
      }
    }

    /** All mines have been flagged. */
    predicate Won()
      reads this
    {
      minesFound == mines
    }
  }

  /** The cells of `near` that a row-by-row scan meets before square (i, j). */
  ghost function ScannedBefore(near: set<Cell>, i: int, j: int): set<Cell> {
    set p | p in near && (p.0 < i || (p.0 == i && p.1 < j))
  }

  /** The mines around `cell` lie in its 3 x 3 block: none is met before the block, all are met after it. */
  lemma ScanBounds(near: set<Cell>, cell: Cell, height: int, width: int, mines: set<Cell>)
    requires near == (K.Around(cell, height, width) - {cell}) * mines
    ensures forall p :: p in near ==> cell.1 - 1 <= p.1 < cell.1 + 2
    ensures ScannedBefore(near, cell.0 - 1, cell.1 - 1) == {}
    ensures ScannedBefore(near, cell.0 + 2, cell.1 - 1) == near
  {
  }

  /**
   * Visiting square (i, j) of the block around `cell` meets it exactly when
   * it is a mine on the board other than `cell`, and meets it for the first time.
   */
  lemma ScanVisit(near: set<Cell>, cell: Cell, height: int, width: int, mines: set<Cell>, i: int, j: int)
    requires near == (K.Around(cell, height, width) - {cell}) * mines
    requires cell.0 - 1 <= i <= cell.0 + 1 && cell.1 - 1 <= j <= cell.1 + 1
    ensures var hit := (i, j) != cell && 0 <= i < height && 0 <= j < width && (i, j) in mines;
      && ScannedBefore(near, i, j + 1) == ScannedBefore(near, i, j) + (if hit then {(i, j)} else {})
      && (hit ==> (i, j) !in ScannedBefore(near, i, j))
  {
  }

  /** Past the last column of `near`, a scan of row `i` is the scan up to the start of row `i + 1`. */
  lemma ScanRow(near: set<Cell>, i: int, lo: int, hi: int)
    requires forall p :: p in near ==> lo <= p.1 < hi
    ensures ScannedBefore(near, i, hi) == ScannedBefore(near, i + 1, lo)
  {
  }

  /**
   * One turn of the game loop: the player reveals `cell`, which is not a mine,
   * and the agent learns the number of mines around it. Fed by the board like
   * this, the agent never holds a false fact or a false sentence.
   */
  method RevealSafeCell(game: Minesweeper, ai: MinesweeperAI, cell: Cell)
    requires game.Valid() && ai.Valid()
    requires ai.height == game.height && ai.width == game.width
    requires 0 <= cell.0 < game.height && 0 <= cell.1 < game.width && !game.IsMine(cell)
    modifies ai, ai.knowledge
    ensures ai.Valid()
    ensures ai.Abstract() == K.AddKnowledge(old(ai.Abstract()), cell,
      |(K.Around(cell, game.height, game.width) - {cell}) * game.mines|, ai.height, ai.width)
    ensures old(K.Consistent(ai.Abstract(), game.mines)) ==>
      K.Consistent(ai.Abstract(), game.mines) && ai.safes !! ai.mines
  {
    ghost var kb, layout := ai.Abstract(), game.mines;
    var count := game.NearbyMines(cell);
    assert ai.Abstract() == kb;
    ai.AddKnowledge(cell, count);
    ghost var r := ai.Abstract();
    assert r == K.AddKnowledge(kb, cell, count, game.height, game.width);
    if K.Consistent(kb, layout) {
      K.AddKnowledgeSound(kb, cell, count, game.height, game.width, layout);
      assert K.Consistent(r, layout) && r.safes !! r.mines;
    }
  }
}
