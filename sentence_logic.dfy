/**
 * The value behind a minesweeper `Sentence`: "exactly `count` of `cells` are
 * mines", with the two queries and the two update rules of the agent, as pure
 * functions. The mutable `Sentence` class in module Minesweeper is proved to
 * follow these functions; the lemmas here say why the rules are sound.
 */
module SentenceLogic {
  import opened Options
  import opened SetFacts

  /** A board position (row, column). */
  type Cell = (int, int)

  /** The content of a sentence: exactly `count` of `cells` are mines. */
  datatype Claim = Claim(cells: set<Cell>, count: int)

  /** The claim is true of the actual mine layout. */
  predicate HoldsIn(s: Claim, layout: set<Cell>) {
    |s.cells * layout| == s.count
  }

  /** `known_mines`: every cell is a mine when there are as many mines as cells. */
  function KnownMines(s: Claim): (r: Option<set<Cell>>)
    ensures r.Some? <==> |s.cells| == s.count
    ensures r.Some? ==> r.value == s.cells
  {
    if |s.cells| == s.count then Some(s.cells) else None
  }

  /** `known_safes`: every cell is safe when there are no mines among them. */
  function KnownSafes(s: Claim): (r: Option<set<Cell>>)
    ensures r.Some? <==> s.count == 0
    ensures r.Some? ==> r.value == s.cells
  {
    if s.count == 0 then Some(s.cells) else None
  }

  /** `mark_mine(c)`: drop `c` and one mine, unless the claim already says "all mines". */
  function MinedBy(s: Claim, c: Cell): Claim {
    if c in s.cells && KnownMines(s).None? then Claim(s.cells - {c}, s.count - 1) else s
  }

  /** `mark_safe(c)`: drop `c`, unless the claim already says "all safe". */
  function ClearedBy(s: Claim, c: Cell): Claim {
    if c in s.cells && KnownSafes(s).None? then Claim(s.cells - {c}, s.count) else s
  }

  /** The effect of `mark_mine` for every cell of `d`, in any order. */
  function MinedBySet(s: Claim, d: set<Cell>): Claim {
    if |s.cells| == s.count then s else Claim(s.cells - d, s.count - |s.cells * d|)
  }

  /** The effect of `mark_safe` for every cell of `d`, in any order. */
  function ClearedBySet(s: Claim, d: set<Cell>): Claim {
    if s.count == 0 then s else Claim(s.cells - d, s.count)
  }

  // ----- The queries are sound -----

  /** A true claim bounds its own count by the number of its cells. */
  lemma HoldsBounds(s: Claim, layout: set<Cell>)
    requires HoldsIn(s, layout)
    ensures 0 <= s.count <= |s.cells|
  {
    SubsetCard(s.cells * layout, s.cells);
  }

  /** Whatever `known_mines` reports of a true claim is a set of mines. */
  lemma KnownMinesSound(s: Claim, layout: set<Cell>)
    requires HoldsIn(s, layout) && KnownMines(s).Some?
    ensures KnownMines(s).value <= layout
  {
    EqualCardSubset(s.cells * layout, s.cells);
  }

  /** Whatever `known_safes` reports of a true claim holds no mine. */
  lemma KnownSafesSound(s: Claim, layout: set<Cell>)
    requires HoldsIn(s, layout) && KnownSafes(s).Some?
    ensures KnownSafes(s).value !! layout
  {
    assert s.cells * layout == {};
    forall x | x in s.cells
      ensures x !in layout
    {
      assert x !in s.cells * layout;
    }
  }

  // ----- The update rules -----

  /** `mark_mine` keeps the number of safe cells `|cells| - count`, so its guard never changes. */
  lemma MinedByKeepsSurplus(s: Claim, c: Cell)
    ensures |MinedBy(s, c).cells| - MinedBy(s, c).count == |s.cells| - s.count
  {
  }

  /** A second `mark_mine` of the same cell changes nothing. */
  lemma MinedByIdempotent(s: Claim, c: Cell)
    ensures MinedBy(MinedBy(s, c), c) == MinedBy(s, c)
  {
  }

  /** `mark_safe` never changes the count, and a second call changes nothing. */
  lemma ClearedByIdempotent(s: Claim, c: Cell)
    ensures ClearedBy(s, c).count == s.count
    ensures ClearedBy(ClearedBy(s, c), c) == ClearedBy(s, c)
  {
  }

  /** Marking an actual mine keeps a true claim true. */
  lemma MinedByHolds(s: Claim, c: Cell, layout: set<Cell>)
    requires HoldsIn(s, layout) && c in layout
    ensures HoldsIn(MinedBy(s, c), layout)
  {
    if c in s.cells && KnownMines(s).None? {
      assert (s.cells - {c}) * layout == (s.cells * layout) - {c};
    }
  }

  /** Marking an actually safe cell keeps a true claim true. */
  lemma ClearedByHolds(s: Claim, c: Cell, layout: set<Cell>)
    requires HoldsIn(s, layout) && c !in layout
    ensures HoldsIn(ClearedBy(s, c), layout)
  {
    if c in s.cells && KnownSafes(s).None? {
      assert (s.cells - {c}) * layout == s.cells * layout;
    }
  }

  /**
   * The update rules do not protect `0 <= count <= |cells|` by themselves:
   * marking as a mine a cell of a claim that says "no mines" drives the count
   * negative, and marking safe a cell of an "all mines" claim leaves more mines
   * than cells. Only true marks (MinedByHolds, ClearedByHolds) keep it.
   */
  lemma UnguardedMarksBreakBounds(c: Cell, d: Cell)
    requires c != d
    ensures MinedBy(Claim({c, d}, 0), c) == Claim({d}, -1)
    ensures ClearedBy(Claim({c, d}, 2), c) == Claim({d}, 2)
  {
  }

  // ----- Marking many cells, one at a time, in any order -----

  /** One more `mark_mine` after a set of them is the set grown by that cell. */
  lemma MinedByStep(s: Claim, d: set<Cell>, e: Cell)
    ensures MinedBy(MinedBySet(s, d), e) == MinedBySet(s, d + {e})
  {
    if |s.cells| != s.count {
      var u := MinedBySet(s, d);
      SplitCard(s.cells, d);
      assert |u.cells| != u.count;
      if e in s.cells && e !in d {
        assert s.cells * (d + {e}) == s.cells * d + {e};
        assert s.cells - (d + {e}) == u.cells - {e};
      } else {
        assert s.cells * (d + {e}) == s.cells * d;
        assert s.cells - (d + {e}) == u.cells;
      }
    }
  }

  /** One more `mark_safe` after a set of them is the set grown by that cell. */
  lemma ClearedByStep(s: Claim, d: set<Cell>, e: Cell)
    ensures ClearedBy(ClearedBySet(s, d), e) == ClearedBySet(s, d + {e})
  {
    if s.count != 0 {
      assert s.cells - (d + {e}) == (s.cells - d) - {e};
    }
  }

  /** Marking no cell changes nothing. */
  lemma MarkNothing(s: Claim)
    ensures MinedBySet(s, {}) == s && ClearedBySet(s, {}) == s
  {
    assert s.cells - {} == s.cells;
    assert s.cells * {} == {};
  }

  /** Marking actual mines keeps a true claim true. */
  lemma MinedBySetHolds(s: Claim, d: set<Cell>, layout: set<Cell>)
    requires HoldsIn(s, layout) && d <= layout
    ensures HoldsIn(MinedBySet(s, d), layout)
  {
    if |s.cells| != s.count {
      var inside := s.cells * layout;
      SplitCard(inside, d);
      assert (s.cells - d) * layout == inside - d;
      assert inside * d == s.cells * d;
    }
  }

  /** Marking actually safe cells keeps a true claim true. */
  lemma ClearedBySetHolds(s: Claim, d: set<Cell>, layout: set<Cell>)
    requires HoldsIn(s, layout) && d !! layout
    ensures HoldsIn(ClearedBySet(s, d), layout)
  {
    if s.count != 0 {
      assert (s.cells - d) * layout == s.cells * layout;
    }
  }
}
