/**
 * The state of the minesweeper agent as a value, and what each of its
 * operations does to that value. `MinesweeperAI` in module Minesweeper is
 * proved to follow these functions; the lemmas here state what the agent's
 * deductions guarantee: the fact sets only grow, one observation adds at most
 * one sentence, and every fact and sentence stays true of the actual mine
 * layout when the observations are true.
 */
module KnowledgeLogic {
  import opened SetFacts
  import opened SentenceLogic

  /** `moves_made`, `mines`, `safes` and the values of the sentences in `knowledge`. */
  datatype Knowledge = Knowledge(
    movesMade: set<Cell>,
    mines: set<Cell>,
    safes: set<Cell>,
    sentences: seq<Claim>)

  /** The agent's mark_mine: record `c` as a mine and apply Sentence.mark_mine to every sentence. */
  function MarkMine(kb: Knowledge, c: Cell): (r: Knowledge) {
    kb.(mines := kb.mines + {c},
        sentences := seq(|kb.sentences|, k requires 0 <= k < |kb.sentences| => MinedBy(kb.sentences[k], c)))
  }

  /** The agent's mark_safe: record `c` as safe and apply Sentence.mark_safe to every sentence. */
  function MarkSafe(kb: Knowledge, c: Cell): (r: Knowledge) {
    kb.(safes := kb.safes + {c},
        sentences := seq(|kb.sentences|, k requires 0 <= k < |kb.sentences| => ClearedBy(kb.sentences[k], c)))
  }

  /** mark_mine for every cell of `d`, in any order. */
  function MarkMines(kb: Knowledge, d: set<Cell>): (r: Knowledge) {
    kb.(mines := kb.mines + d,
        sentences := seq(|kb.sentences|, k requires 0 <= k < |kb.sentences| => MinedBySet(kb.sentences[k], d)))
  }

  /** mark_safe for every cell of `d`, in any order. */
  function MarkSafes(kb: Knowledge, d: set<Cell>): (r: Knowledge) {
    kb.(safes := kb.safes + d,
        sentences := seq(|kb.sentences|, k requires 0 <= k < |kb.sentences| => ClearedBySet(kb.sentences[k], d)))
  }

  /** The cells of a `height` x `width` board within one row and one column of `cell` (the cell included). */
  function Around(cell: Cell, height: int, width: int): (r: set<Cell>)
    ensures forall p :: p in r <==>
      && cell.0 - 1 <= p.0 <= cell.0 + 1 && cell.1 - 1 <= p.1 <= cell.1 + 1
      && 0 <= p.0 < height && 0 <= p.1 < width
  {
    set i, j | cell.0 - 1 <= i <= cell.0 + 1 && cell.1 - 1 <= j <= cell.1 + 1
               && 0 <= i < height && 0 <= j < width :: (i, j)
  }

  /**
   * The neighbourhood is the block add_knowledge scans: rows from `cell.0 - 1`
   * raised to 0, up to `cell.0 + 2` lowered to `height`, and the same for columns.
   */
  lemma AroundIsClippedBlock(cell: Cell, height: int, width: int)
    ensures forall p :: p in Around(cell, height, width) <==>
      && (if cell.0 - 1 < 0 then 0 else cell.0 - 1) <= p.0 < (if cell.0 + 2 > height then height else cell.0 + 2)
      && (if cell.1 - 1 < 0 then 0 else cell.1 - 1) <= p.1 < (if cell.1 + 2 > width then width else cell.1 + 2)
  {
  }

  /** The sentence add_knowledge builds: the cells around `cell` not yet moved to and not known safe. */
  function NeighbourClaim(kb: Knowledge, cell: Cell, count: int, height: int, width: int): Claim {
    Claim(Around(cell, height, width) - kb.movesMade - kb.safes, count)
  }

  /** add_knowledge's first step: `cell` is moved to and safe. */
  function Arrive(kb: Knowledge, cell: Cell): Knowledge {
    var kb1 := MarkSafe(kb, cell);
    kb1.(movesMade := kb1.movesMade + {cell})
  }

  /**
   * What add_knowledge does with the neighbour sentence `s`: mark its cells
   * at once when it says "no mines" or "all mines"; otherwise append it.
   */
  function Settle(kb: Knowledge, s: Claim): Knowledge {
    if s.count == 0 then MarkSafes(kb, s.cells)
    else if |s.cells| == s.count then MarkMines(kb, s.cells)
    else kb.(sentences := kb.sentences + [s])
  }

  /** The first half of add_knowledge: arrive at `cell`, then settle its neighbour sentence. */
  function Observe(kb: Knowledge, cell: Cell, count: int, height: int, width: int): Knowledge {
    var kb2 := Arrive(kb, cell);
    Settle(kb2, NeighbourClaim(kb2, cell, count, height, width))
  }

  /**
   * Whether the resolution pass clears sentence `k` through the known mines:
   * it still has safe cells and mines, and the known mines among its cells
   * already account for all its mines.
   */
  predicate MinesAccountedFor(kb: Knowledge, k: nat)
    requires k < |kb.sentences|
  {
    var s := kb.sentences[k];
    && |s.cells| > s.count && s.count > 0
    && |s.cells * kb.mines| > 0 && |s.cells * kb.mines| == s.count
  }

  /** The state after the first step of the pass on sentence `k`: its cells that are not known mines marked safe. */
  function ClearUnmined(kb: Knowledge, k: nat): (r: Knowledge)
    requires k < |kb.sentences|
  {
    if MinesAccountedFor(kb, k) then MarkSafes(kb, kb.sentences[k].cells - kb.mines) else kb
  }

  /** Sentence `k` as the pass looks at it after the first step. */
  function Visited(kb: Knowledge, k: nat): Claim
    requires k < |kb.sentences|
  {
    ClearUnmined(kb, k).sentences[k]
  }

  /** The second step of the pass on sentence `k`: settle it if it says "no mines" or "all mines". */
  function Conclude(kb: Knowledge, k: nat): (r: Knowledge)
    requires k < |kb.sentences|
    ensures |r.sentences| == |kb.sentences| && r.movesMade == kb.movesMade
  {
    var w := kb.sentences[k];
    if |w.cells| > 0 && w.count == 0 then MarkSafes(kb, w.cells)
    else if |w.cells| == w.count && w.count > 0 then MarkMines(kb, w.cells)
    else kb
  }

  /** One step of the resolution pass, on sentence `k`. */
  function Resolve(kb: Knowledge, k: nat): (r: Knowledge)
    requires k < |kb.sentences|
    ensures |r.sentences| == |kb.sentences| && r.movesMade == kb.movesMade
  {
    Conclude(ClearUnmined(kb, k), k)
  }

  /** The resolution pass over the first `n` sentences, in list order. */
  function Pass(kb: Knowledge, n: nat): (r: Knowledge)
    requires n <= |kb.sentences|
    ensures |r.sentences| == |kb.sentences| && r.movesMade == kb.movesMade
  {
    if n == 0 then kb else Resolve(Pass(kb, n - 1), n - 1)
  }

  /** add_knowledge: the observation, then one resolution pass over the whole list. */
  function AddKnowledge(kb: Knowledge, cell: Cell, count: int, height: int, width: int): Knowledge {
    var kb3 := Observe(kb, cell, count, height, width);
    Pass(kb3, |kb3.sentences|)
  }

  // ----- Marking a set one cell at a time -----

  /** Marking no cell changes nothing. */
  lemma MarkNone(kb: Knowledge)
    ensures MarkMines(kb, {}) == kb && MarkSafes(kb, {}) == kb
  {
    forall k | 0 <= k < |kb.sentences|
      ensures MinedBySet(kb.sentences[k], {}) == kb.sentences[k]
      ensures ClearedBySet(kb.sentences[k], {}) == kb.sentences[k]
    {
      MarkNothing(kb.sentences[k]);
    }
    assert kb.mines + {} == kb.mines && kb.safes + {} == kb.safes;
  }

  /** mark_mine after marking the mines of `d` is marking the mines of `d` and `e`, whatever the order. */
  lemma MarkMineStep(kb: Knowledge, d: set<Cell>, e: Cell)
    ensures MarkMine(MarkMines(kb, d), e) == MarkMines(kb, d + {e})
  {
    forall k | 0 <= k < |kb.sentences|
      ensures MinedBy(MinedBySet(kb.sentences[k], d), e) == MinedBySet(kb.sentences[k], d + {e})
    {
      MinedByStep(kb.sentences[k], d, e);
    }
  }

  /** mark_safe after marking the safe cells of `d` is marking those of `d` and `e`, whatever the order. */
  lemma MarkSafeStep(kb: Knowledge, d: set<Cell>, e: Cell)
    ensures MarkSafe(MarkSafes(kb, d), e) == MarkSafes(kb, d + {e})
  {
    forall k | 0 <= k < |kb.sentences|
      ensures ClearedBy(ClearedBySet(kb.sentences[k], d), e) == ClearedBySet(kb.sentences[k], d + {e})
    {
      ClearedByStep(kb.sentences[k], d, e);
    }
  }

  // ----- Growth -----

  /** Every fact set of `b` contains that of `a`. */
  predicate Grows(a: Knowledge, b: Knowledge) {
    a.movesMade <= b.movesMade && a.mines <= b.mines && a.safes <= b.safes
  }

  /** One step of the pass only adds facts. */
  lemma ResolveGrows(kb: Knowledge, k: nat)
    requires k < |kb.sentences|
    ensures Grows(kb, Resolve(kb, k))
  {
  }

  /** The pass only adds facts, and never adds or drops a sentence. */
  lemma {:induction false} PassGrows(kb: Knowledge, i: nat, j: nat)
    requires i <= j <= |kb.sentences|
    ensures Grows(Pass(kb, i), Pass(kb, j))
    decreases j
  {
    if i < j {
      PassGrows(kb, i, j - 1);
      ResolveGrows(Pass(kb, j - 1), j - 1);
    }
  }

  /**
   * add_knowledge leaves `cell` moved to and known safe, only adds facts, and
   * appends at most one sentence, exactly when the neighbour sentence settles
   * nothing at once.
   */
  lemma AddKnowledgeGrows(kb: Knowledge, cell: Cell, count: int, height: int, width: int)
    ensures var r := AddKnowledge(kb, cell, count, height, width);
      && Grows(kb, r)
      && cell in r.movesMade && cell in r.safes
      && r.movesMade == kb.movesMade + {cell}
      && |kb.sentences| <= |r.sentences| <= |kb.sentences| + 1
  {
    var kb3 := Observe(kb, cell, count, height, width);
    PassGrows(kb3, 0, |kb3.sentences|);
  }

  /** Which of the three cases of add_knowledge applies to the neighbour sentence. */
  lemma ObserveCases(kb: Knowledge, cell: Cell, count: int, height: int, width: int)
    ensures var s := NeighbourClaim(Arrive(kb, cell), cell, count, height, width);
      var r := Observe(kb, cell, count, height, width);
      && (forall p :: p in s.cells ==>
            && 0 <= p.0 < height && 0 <= p.1 < width
            && cell.0 - 1 <= p.0 <= cell.0 + 1 && cell.1 - 1 <= p.1 <= cell.1 + 1
            && p != cell && p !in kb.movesMade && p !in kb.safes)
      && (count == 0 ==> s.cells <= r.safes && |r.sentences| == |kb.sentences|)
      && (count != 0 && |s.cells| == count ==> s.cells <= r.mines && |r.sentences| == |kb.sentences|)
      && (count != 0 && |s.cells| != count ==> r.sentences == MarkSafe(kb, cell).sentences + [s])
  {
  }

  // ----- What the resolution pass settles -----

  /**
   * When the known mines of sentence `k` account for all its mines, its other
   * cells are safe after the step; when the sentence, as visited, says "no
   * mines" or "all mines", its cells are safe or mines after the step.
   */
  lemma ResolveSettles(kb: Knowledge, k: nat)
    requires k < |kb.sentences|
    ensures var r := Resolve(kb, k);
      var w := Visited(kb, k);
      && (MinesAccountedFor(kb, k) ==> kb.sentences[k].cells - kb.mines <= r.safes)
      && (|w.cells| > 0 && w.count == 0 ==> w.cells <= r.safes)
      && (|w.cells| == w.count && w.count > 0 ==> w.cells <= r.mines)
  {
  }

  /**
   * After the whole pass, the cells of every sentence that said "no mines" when
   * visited are known safe, and those of every sentence that said "all mines"
   * are known mines.
   */
  lemma PassSettles(kb: Knowledge, n: nat, k: nat)
    requires k < n <= |kb.sentences|
    ensures var w := Visited(Pass(kb, k), k);
      var r := Pass(kb, n);
      && (|w.cells| > 0 && w.count == 0 ==> w.cells <= r.safes)
      && (|w.cells| == w.count && w.count > 0 ==> w.cells <= r.mines)
  {
    var before := Pass(kb, k);
    var after := Pass(kb, k + 1);
    assert after == Resolve(before, k);
    ResolveSettles(before, k);
    PassGrows(kb, k + 1, n);
    assert Grows(after, Pass(kb, n));
  }

  // ----- Soundness -----

  /** Every fact and every sentence of `kb` is true of the mine layout. */
  predicate Consistent(kb: Knowledge, layout: set<Cell>) {
    && kb.mines <= layout
    && kb.safes !! layout
    && kb.movesMade !! layout
    && forall k :: 0 <= k < |kb.sentences| ==> HoldsIn(kb.sentences[k], layout)
  }

  /** Marking actual mines keeps the knowledge true. */
  lemma MarkMinesSound(kb: Knowledge, d: set<Cell>, layout: set<Cell>)
    requires Consistent(kb, layout) && d <= layout
    ensures Consistent(MarkMines(kb, d), layout)
  {
    var r := MarkMines(kb, d);
    forall k | 0 <= k < |r.sentences|
      ensures HoldsIn(r.sentences[k], layout)
    {
      MinedBySetHolds(kb.sentences[k], d, layout);
    }
  }

  /** Marking actually safe cells keeps the knowledge true. */
  lemma MarkSafesSound(kb: Knowledge, d: set<Cell>, layout: set<Cell>)
    requires Consistent(kb, layout) && d !! layout
    ensures Consistent(MarkSafes(kb, d), layout)
  {
    var r := MarkSafes(kb, d);
    forall k | 0 <= k < |r.sentences|
      ensures HoldsIn(r.sentences[k], layout)
    {
      ClearedBySetHolds(kb.sentences[k], d, layout);
    }
  }

  /** Marking an actually safe cell keeps the knowledge true. */
  lemma MarkSafeSound(kb: Knowledge, c: Cell, layout: set<Cell>)
    requires Consistent(kb, layout) && c !in layout
    ensures Consistent(MarkSafe(kb, c), layout)
  {
    var r := MarkSafe(kb, c);
    forall k | 0 <= k < |r.sentences|
      ensures HoldsIn(r.sentences[k], layout)
    {
      ClearedByHolds(kb.sentences[k], c, layout);
    }
  }

  /** Each step of the pass marks only what is true. */
  lemma ResolveSound(kb: Knowledge, k: nat, layout: set<Cell>)
    requires k < |kb.sentences| && Consistent(kb, layout)
    ensures Consistent(Resolve(kb, k), layout)
  {
    var s := kb.sentences[k];
    if MinesAccountedFor(kb, k) {
      // The known mines among the cells are all the mines among them.
      assert s.cells * kb.mines <= s.cells * layout;
      EqualCardSubset(s.cells * kb.mines, s.cells * layout);
      forall x | x in s.cells - kb.mines
        ensures x !in layout
      {
        assert x !in s.cells * kb.mines;
      }
      MarkSafesSound(kb, s.cells - kb.mines, layout);
    }
    var kb1 := ClearUnmined(kb, k);
    var w := kb1.sentences[k];
    assert HoldsIn(w, layout);
    if |w.cells| > 0 && w.count == 0 {
      KnownSafesSound(w, layout);
      MarkSafesSound(kb1, w.cells, layout);
    } else if |w.cells| == w.count && w.count > 0 {
      KnownMinesSound(w, layout);
      MarkMinesSound(kb1, w.cells, layout);
    }
  }

  /** The whole pass marks only what is true. */
  lemma {:induction false} PassSound(kb: Knowledge, n: nat, layout: set<Cell>)
    requires n <= |kb.sentences| && Consistent(kb, layout)
    ensures Consistent(Pass(kb, n), layout)
  {
    if n > 0 {
      PassSound(kb, n - 1, layout);
      ResolveSound(Pass(kb, n - 1), n - 1, layout);
    }
  }

  /**
   * The main guarantee: fed a revealed safe cell and the true number of mines
   * around it, add_knowledge keeps every fact and every sentence true, so the
   * agent never takes a mine for safe or a safe cell for a mine.
   */
  lemma AddKnowledgeSound(kb: Knowledge, cell: Cell, count: int, height: int, width: int, layout: set<Cell>)
    requires Consistent(kb, layout)
    requires cell !in layout
    requires count == |(Around(cell, height, width) - {cell}) * layout|
    ensures Consistent(AddKnowledge(kb, cell, count, height, width), layout)
    ensures AddKnowledge(kb, cell, count, height, width).safes !! AddKnowledge(kb, cell, count, height, width).mines
  {
    MarkSafeSound(kb, cell, layout);
    var kb2 := Arrive(kb, cell);
    assert Consistent(kb2, layout);
    var s := NeighbourClaim(kb2, cell, count, height, width);
    assert (Around(cell, height, width) - {cell}) * layout == Around(cell, height, width) * layout;
    assert s.cells * layout == Around(cell, height, width) * layout;
    assert HoldsIn(s, layout);
    if count == 0 {
      KnownSafesSound(s, layout);
      MarkSafesSound(kb2, s.cells, layout);
    } else if |s.cells| == count {
      KnownMinesSound(s, layout);
      MarkMinesSound(kb2, s.cells, layout);
    }
    var kb3 := Observe(kb, cell, count, height, width);
    assert Consistent(kb3, layout);
    PassSound(kb3, |kb3.sentences|, layout);
  }
}
