/** A logical sentence about the game: exactly `count` of `cells` are mines. */
module Sentences {
  import opened Grid

  datatype Sentence = Sentence(cells: set<Cell>, count: int)
  {
    /** The cells of this sentence that it proves to be mines: all of them
        when the count equals the number of cells, none otherwise. */
    function KnownMines(): (r: set<Cell>)
      ensures r <= cells
      ensures r != {} ==> count == |cells|
      ensures count == |cells| ==> r == cells
    {
      if count == |cells| then cells else {}
    }

    /** The cells of this sentence that it proves to be safe: all of them
        when the count is zero, none otherwise. */
    function KnownSafes(): (r: set<Cell>)
      ensures r <= cells
      ensures r != {} ==> count == 0
      ensures count == 0 ==> r == cells
    {
      if count == 0 then cells else {}
    }

    /** The sentence after `c` is known to be a mine: `c` leaves the cells
        and, if it was one of them, accounts for one mine of the count. */
    function MarkMine(c: Cell): (r: Sentence)
      ensures c !in r.cells && r.cells <= cells
      ensures c in cells ==> r.cells + {c} == cells && r.count == count - 1
      ensures c !in cells ==> r == this
    {
      if c in cells then Sentence(cells - {c}, count - 1) else this
    }

    /** The sentence after `c` is known to be safe: `c` leaves the cells and
        the count stays as it is. */
    function MarkSafe(c: Cell): (r: Sentence)
      ensures c !in r.cells && r.cells <= cells
      ensures r.count == count
      ensures c in cells ==> r.cells + {c} == cells
      ensures c !in cells ==> r == this
    {
      if c in cells then Sentence(cells - {c}, count) else this
    }

    /** The sentence after every cell of `m` is known to be a mine, in any
        order (the effect of `MarkMine` for each cell of `m` in turn). */
    function MarkMines(m: set<Cell>): (r: Sentence)
      ensures r.cells == cells - m
      ensures r.count == count - |cells * m|
    {
      Sentence(cells - m, count - |cells * m|)
    }

    /** The sentence after every cell of `s` is known to be safe. */
    function MarkSafes(s: set<Cell>): (r: Sentence)
      ensures r.cells == cells - s && r.count == count
    {
      Sentence(cells - s, count)
    }

    /** The sentence is true of a placement of mines `t`: exactly `count`
        of its cells are in `t`. */
    predicate HoldsFor(t: set<Cell>)
    {
      |cells * t| == count
    }
  }

  // ---------------------------------------------------------------------
  // Properties of a single sentence

  /** A mine already marked, or a cell outside the sentence, changes
      nothing: marking is idempotent. */
  lemma MarkMineIdempotent(s: Sentence, c: Cell)
    ensures s.MarkMine(c).MarkMine(c) == s.MarkMine(c)
    ensures s.MarkSafe(c).MarkSafe(c) == s.MarkSafe(c)
  {
  }

  /** Marking a cell that is not in the sentence, safe or mine, in either
      order, leaves the sentence as it is. */
  lemma MarkAbsentNoOp(s: Sentence, c: Cell)
    requires c !in s.cells
    ensures s.MarkSafe(c).MarkMine(c) == s && s.MarkMine(c).MarkSafe(c) == s
  {
  }

  /** Marking one more mine on top of a set of marked mines is marking the
      union: the order in which the cells of a set are marked does not matter. */
  lemma MarkMinesStep(s: Sentence, m: set<Cell>, c: Cell)
    ensures s.MarkMines(m).MarkMine(c) == s.MarkMines(m + {c})
  {
    var rest := s.cells - m;
    if c in m {
      assert m + {c} == m;
    } else if c in s.cells {
      assert s.cells * (m + {c}) == (s.cells * m) + {c};
      assert c !in s.cells * m;
      assert rest - {c} == s.cells - (m + {c});
    } else {
      assert s.cells * (m + {c}) == s.cells * m;
    }
  }

  /** The same for safe cells. */
  lemma MarkSafesStep(s: Sentence, m: set<Cell>, c: Cell)
    ensures s.MarkSafes(m).MarkSafe(c) == s.MarkSafes(m + {c})
  {
    var rest := s.cells - m;
    if c in rest {
      assert rest - {c} == s.cells - (m + {c});
    } else {
      assert rest == s.cells - (m + {c});
    }
  }

  /** A sentence that is true of some placement of mines has a count
      between zero and the number of its cells. */
  lemma HoldsBounds(s: Sentence, t: set<Cell>)
    requires s.HoldsFor(t)
    ensures 0 <= s.count <= |s.cells|
  {
    SubsetCard(s.cells * t, s.cells);
  }

  /** What a true sentence proves is right: its known mines are mines and
      its known safes are not. */
  lemma KnownSound(s: Sentence, t: set<Cell>)
    requires s.HoldsFor(t)
    ensures s.KnownMines() <= t
    ensures s.KnownSafes() !! t
  {
    if s.count == |s.cells| {
      SubsetCard(s.cells * t, s.cells);
      assert s.cells - (s.cells * t) == {} by {
        assert |s.cells| == |s.cells * t| + |s.cells - (s.cells * t)|;
      }
      assert s.cells <= t;
    }
    if s.count == 0 {
      assert s.cells * t == {};
      forall x | x in s.cells ensures x !in t {
        assert x !in s.cells * t;
      }
    }
  }

  /** Marking a true fact keeps a true sentence true. */
  lemma MarkSound(s: Sentence, t: set<Cell>, c: Cell)
    requires s.HoldsFor(t)
    ensures c in t ==> s.MarkMine(c).HoldsFor(t)
    ensures c !in t ==> s.MarkSafe(c).HoldsFor(t)
  {
    if c in s.cells {
      var rest := s.cells - {c};
      if c in t {
        assert s.cells * t == (rest * t) + {c};
      } else {
        assert s.cells * t == rest * t;
      }
    }
  }

  /** The same for a whole set of true mines and a whole set of true safes. */
  lemma MarkSetsSound(s: Sentence, t: set<Cell>, safes: set<Cell>, mines: set<Cell>)
    requires s.HoldsFor(t) && safes !! t && mines <= t
    ensures s.MarkSafes(safes).HoldsFor(t)
    ensures s.MarkSafes(safes).MarkMines(mines).HoldsFor(t)
  {
    var a := s.cells - safes;
    assert a * t == s.cells * t;
    var b := a - mines;
    assert a * t == (b * t) + (a * mines);
    assert (b * t) !! (a * mines);
  }

  /** The subset rule is sound: when the cells of one true sentence lie
      inside those of another, the leftover cells carry the leftover count. */
  lemma SubsetSound(s1: Sentence, s2: Sentence, t: set<Cell>)
    requires s1.HoldsFor(t) && s2.HoldsFor(t)
    requires s1.cells <= s2.cells
    ensures Sentence(s2.cells - s1.cells, s2.count - s1.count).HoldsFor(t)
  {
    var d := s2.cells - s1.cells;
    assert s2.cells * t == (d * t) + (s1.cells * t);
    assert (d * t) !! (s1.cells * t);
  }
}
