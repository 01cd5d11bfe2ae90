/** The player, as an object whose methods update its fields in place. Each
    method is proved to leave exactly the state that the functions of module
    `Inference` describe, so every property proved there holds of it. */
module Player {
  import opened Grid
  import opened Sentences
  import opened Inference

  /** The cells of `xs` come in strictly increasing row-major order. */
  predicate RowMajor(xs: seq<Cell>)
  {
    forall a, b :: 0 <= a < b < |xs| ==> Before(xs[a], xs[b].0, xs[b].1)
  }

  /** Add to `acc` the cells of `known` that are not in `exclude`, one at a
      time; `added` says whether there were any. */
  method GatherNew(acc: set<Cell>, known: set<Cell>, exclude: set<Cell>) returns (r: set<Cell>, added: bool)
    ensures r == acc + (known - exclude)
    ensures added <==> known - exclude != {}
  {
    r, added := acc, false;
    var rest := known;
    while rest != {}
      invariant rest <= known
      invariant forall c {:trigger c in r} :: c in r <==> c in acc || (c in known && c !in rest && c !in exclude)
      invariant added <==> exists c :: c in known && c !in rest && c !in exclude
      decreases |rest|
    {
      var c :| c in rest;
      if c !in exclude {
        r := r + {c};
        added := true;
      }
      rest := rest - {c};
    }
  }

  /** One step of the subset scan: the pair (s1, s2), with the checks in the
      order the loop makes them, adds the difference of `s1` and `s2` to
      `toAdd` when it is new to both `sentences` and `toAdd`, and says
      whether it did. */
  method ConsiderPair(sentences: seq<Sentence>, toAdd: seq<Sentence>, s1: Sentence, s2: Sentence)
    returns (r: seq<Sentence>, added: bool)
    ensures r == Consider(sentences, toAdd, s1, s2)
    ensures added <==> r != toAdd
  {
    r, added := toAdd, false;
    // Value equality, as the source's `==` on sentences.
    if s1 != s2 && s1.cells <= s2.cells && s1.cells != s2.cells && |s2.cells| > 0 {
      var newCells := s2.cells - s1.cells;
      var newCount := s2.count - s1.count;
      if |newCells| > 0 {
        var inferredSentence := Sentence(newCells, newCount);
        if inferredSentence !in sentences && inferredSentence !in toAdd {
          r := toAdd + [inferredSentence];
          added := true;
        }
      }
    }
  }

  class MinesweeperAI {
    const height: int
    const width: int
    /** Cells clicked. */
    var movesMade: set<Cell>
    /** Cells known to be mines. */
    var mines: set<Cell>
    /** Cells known to be safe. */
    var safes: set<Cell>
    /** Sentences known to be true, in list order. */
    var knowledge: seq<Sentence>

    /** The fields as a value. */
    function View(): State
      reads this
    {
      State(movesMade, mines, safes, knowledge)
    }

    /** A player that knows nothing yet. */
    constructor(height: int, width: int)
      ensures this.height == height && this.width == width
      ensures View() == State({}, {}, {}, [])
    {
      this.height := height;
      this.width := width;
      movesMade := {};
      mines := {};
      safes := {};
      knowledge := [];
    }

    /** Record that `c` is a mine and tell every sentence, in place. */
    method MarkMine(c: Cell)
      modifies this
      ensures View() == old(View()).MarkMine(c)
    {
      mines := mines + {c};
      var i := 0;
      while i < |knowledge|
        invariant 0 <= i <= |knowledge| == |old(knowledge)|
        invariant forall k :: 0 <= k < i ==> knowledge[k] == old(knowledge)[k].MarkMine(c)
        invariant forall k :: i <= k < |knowledge| ==> knowledge[k] == old(knowledge)[k]
        invariant mines == old(mines) + {c} && safes == old(safes) && movesMade == old(movesMade)
      {
        knowledge := knowledge[i := knowledge[i].MarkMine(c)];
        i := i + 1;
      }
      assert knowledge == MarkMineAll(old(knowledge), c);
    }

    /** Record that `c` is safe and tell every sentence, in place. */
    method MarkSafe(c: Cell)
      modifies this
      ensures View() == old(View()).MarkSafe(c)
    {
      safes := safes + {c};
      var i := 0;
      while i < |knowledge|
        invariant 0 <= i <= |knowledge| == |old(knowledge)|
        invariant forall k :: 0 <= k < i ==> knowledge[k] == old(knowledge)[k].MarkSafe(c)
        invariant forall k :: i <= k < |knowledge| ==> knowledge[k] == old(knowledge)[k]
        invariant mines == old(mines) && safes == old(safes) + {c} && movesMade == old(movesMade)
      {
        knowledge := knowledge[i := knowledge[i].MarkSafe(c)];
        i := i + 1;
      }
      assert knowledge == MarkSafeAll(old(knowledge), c);
    }

    /** The sentence an observation of `count` mines around `cell` yields:
        the unknown in-grid neighbours, with one mine taken off the count
        for each neighbour already known to be a mine. */
    method NeighbourSentence(cell: Cell, count: int) returns (s: Sentence)
      ensures s == NewSentence(height, width, mines, safes, cell, count)
    {
      var unknown: set<Cell> := {};
      var adjusted := count;
      // The known mines passed so far.
      ghost var seen: set<Cell> := {};
      var i := cell.0 - 1;
      while i < cell.0 + 2
        invariant cell.0 - 1 <= i <= cell.0 + 2
        invariant Scanned(height, width, mines, safes, cell, i, cell.1 - 1, unknown, seen)
        invariant adjusted == count - |seen|
      {
        var j := cell.1 - 1;
        while j < cell.1 + 2
          invariant cell.1 - 1 <= j <= cell.1 + 2
          invariant Scanned(height, width, mines, safes, cell, i, j, unknown, seen)
          invariant adjusted == count - |seen|
        {
          var p := (i, j);
          ScanStep(height, width, mines, safes, cell, i, j, unknown, seen);
          // The clicked cell is not its own neighbour; known mines lower
          // the count, known safes are skipped.
          if p != cell && 0 <= i < height && 0 <= j < width {
            if p in mines {
              adjusted := adjusted - 1;
              seen := seen + {p};
            } else if p !in safes {
              unknown := unknown + {p};
            }
          }
          j := j + 1;
        }
        ScanNextRow(height, width, mines, safes, cell, i, unknown, seen);
        i := i + 1;
      }
      ScanDone(height, width, mines, safes, cell, count, unknown, seen);
      s := Sentence(unknown, adjusted);
    }

    /** Direct resolution: the cells some sentence proves safe that are not
        known safe, and those some sentence proves to be mines that are not
        known mines; `found` says whether there are any. */
    method CollectFacts() returns (newSafes: set<Cell>, newMines: set<Cell>, found: bool)
      ensures newSafes == View().NewSafes() && newMines == View().NewMines()
      ensures forall c {:trigger c in newSafes} :: c in newSafes <==>
        c !in safes && exists k :: 0 <= k < |knowledge| && c in knowledge[k].KnownSafes()
      ensures forall c {:trigger c in newMines} :: c in newMines <==>
        c !in mines && exists k :: 0 <= k < |knowledge| && c in knowledge[k].KnownMines()
      ensures found <==> newSafes != {} || newMines != {}
    {
      var sentences := knowledge;
      newSafes, newMines, found := {}, {}, false;
      var k := 0;
      while k < |sentences|
        invariant 0 <= k <= |sentences|
        invariant forall c {:trigger c in newSafes} :: c in newSafes <==> c in KnownSafesOf(sentences[..k]) && c !in safes
        invariant forall c {:trigger c in newMines} :: c in newMines <==> c in KnownMinesOf(sentences[..k]) && c !in mines
        invariant found <==> newSafes != {} || newMines != {}
      {
        KnownOfStep(sentences, k);
        var sentence := sentences[k];
        var addedSafe, addedMine;
        newSafes, addedSafe := GatherNew(newSafes, sentence.KnownSafes(), safes);
        newMines, addedMine := GatherNew(newMines, sentence.KnownMines(), mines);
        found := found || addedSafe || addedMine;
        k := k + 1;
      }
      assert sentences[..k] == sentences;
      assert newSafes == KnownSafesOf(sentences) - safes;
      assert newMines == KnownMinesOf(sentences) - mines;
      KnownOfSpec(sentences);
    }

    /** Mark every cell of `cells` safe, one at a time. */
    method MarkSafes(cells: set<Cell>)
      modifies this
      ensures View() == State(old(movesMade), old(mines), old(safes) + cells, MarkSafesAll(old(knowledge), cells))
    {
      MarkNothing(knowledge);
      var rest := cells;
      assert cells - rest == {};
      while rest != {}
        invariant rest <= cells
        invariant knowledge == MarkSafesAll(old(knowledge), cells - rest)
        invariant safes == old(safes) + (cells - rest)
        invariant mines == old(mines) && movesMade == old(movesMade)
        decreases |rest|
      {
        var c :| c in rest;
        MarkSafesAllStep(old(knowledge), cells - rest, c);
        assert (cells - rest) + {c} == cells - (rest - {c});
        MarkSafe(c);
        rest := rest - {c};
      }
      assert cells - rest == cells;
    }

    /** Mark every cell of `cells` a mine, one at a time. */
    method MarkMines(cells: set<Cell>)
      modifies this
      ensures View() == State(old(movesMade), old(mines) + cells, old(safes), MarkMinesAll(old(knowledge), cells))
    {
      MarkNothing(knowledge);
      var rest := cells;
      assert cells - rest == {};
      while rest != {}
        invariant rest <= cells
        invariant knowledge == MarkMinesAll(old(knowledge), cells - rest)
        invariant mines == old(mines) + (cells - rest)
        invariant safes == old(safes) && movesMade == old(movesMade)
        decreases |rest|
      {
        var c :| c in rest;
        MarkMinesAllStep(old(knowledge), cells - rest, c);
        assert (cells - rest) + {c} == cells - (rest - {c});
        MarkMine(c);
        rest := rest - {c};
      }
      assert cells - rest == cells;
    }

    /** The sentences without cells, in list order. */
    method EmptySentences() returns (toRemove: seq<Sentence>)
      ensures toRemove == Empties(knowledge)
    {
      var sentences := knowledge;
      toRemove := [];
      var i := 0;
      while i < |sentences|
        invariant 0 <= i <= |sentences|
        invariant toRemove == Empties(sentences[..i])
      {
        assert sentences[..i + 1] == sentences[..i] + [sentences[i]];
        EmptiesAppend(sentences[..i], sentences[i]);
        if sentences[i].cells == {} {
          toRemove := toRemove + [sentences[i]];
        }
        i := i + 1;
      }
      assert sentences[..i] == sentences;
    }

    /** Remove every sentence left without cells; `removed` says whether
        any was. */
    method PruneEmpty() returns (removed: bool)
      modifies this
      ensures knowledge == NonEmpty(old(knowledge))
      ensures removed == (|knowledge| < |old(knowledge)|)
      ensures movesMade == old(movesMade) && mines == old(mines) && safes == old(safes)
    {
      var toRemove := EmptySentences();
      PruneStart(knowledge);
      removed := false;
      var j := 0;
      while j < |toRemove|
        invariant 0 <= j <= |toRemove|
        invariant Pruning(old(knowledge), knowledge, toRemove[j..])
        invariant removed <==> j > 0
        invariant movesMade == old(movesMade) && mines == old(mines) && safes == old(safes)
      {
        var x := toRemove[j];
        PruneStep(old(knowledge), knowledge, toRemove[j..]);
        assert toRemove[j..][1..] == toRemove[j + 1..];
        // The sentence may in principle have gone already.
        if x in knowledge {
          knowledge := RemoveFirst(knowledge, x);
          removed := true;
        }
        j := j + 1;
      }
      PruneDone(old(knowledge), knowledge);
    }

    /** The subset rule over every ordered pair of sentences: each new
        difference, once, in the order found; `inferred` says whether there
        were any. */
    method SubsetInferences() returns (toAdd: seq<Sentence>, inferred: bool)
      ensures toAdd == Derived(knowledge)
      ensures inferred == (toAdd != [])
    {
      var sentences := knowledge;
      toAdd := [];
      inferred := false;
      var i := 0;
      while i < |sentences|
        invariant 0 <= i <= |sentences|
        invariant toAdd == DerivedUpTo(sentences, i)
        invariant inferred == (toAdd != [])
      {
        var s1 := sentences[i];
        var j := 0;
        while j < |sentences|
          invariant 0 <= j <= |sentences|
          invariant toAdd == Row(sentences, s1, DerivedUpTo(sentences, i), j)
          invariant inferred == (toAdd != [])
        {
          RowNext(sentences, s1, DerivedUpTo(sentences, i), j);
          var added;
          toAdd, added := ConsiderPair(sentences, toAdd, s1, sentences[j]);
          if added {
            inferred := true;
          }
          j := j + 1;
        }
        DerivedUpToNext(sentences, i);
        i := i + 1;
      }
    }

    /** Append what the subset rule derives; `inferred` says whether it
        derived anything. */
    method InferSubsets() returns (inferred: bool)
      modifies this
      ensures knowledge == old(knowledge) + Derived(old(knowledge))
      ensures inferred == (Derived(old(knowledge)) != [])
      ensures movesMade == old(movesMade) && mines == old(mines) && safes == old(safes)
    {
      var toAdd;
      toAdd, inferred := SubsetInferences();
      var k := 0;
      while k < |toAdd|
        invariant 0 <= k <= |toAdd|
        invariant knowledge == old(knowledge) + toAdd[..k]
        invariant movesMade == old(movesMade) && mines == old(mines) && safes == old(safes)
      {
        assert toAdd[..k + 1] == toAdd[..k] + [toAdd[k]];
        knowledge := knowledge + [toAdd[k]];
        k := k + 1;
      }
      assert toAdd[..k] == toAdd;
    }

    /** One pass of the inference loop; `changed` says whether it learnt
        anything. */
    method InferencePass() returns (changed: bool)
      modifies this
      ensures (View(), changed) == old(View()).Pass()
    {
      var newSafes, newMines, found := CollectFacts();
      MarkSafes(newSafes);
      MarkMines(newMines);
      var removed := PruneEmpty();
      var inferred := InferSubsets();
      changed := found || removed || inferred;
    }

    /** The first part of `add_knowledge(cell, count)`: record the move,
        mark the cell safe, and add the sentence about its neighbours when
        it has cells and is not already known. */
    method Observe(cell: Cell, count: int)
      modifies this
      ensures View() == old(View()).Observe(height, width, cell, count)
    {
      movesMade := movesMade + {cell};
      MarkSafe(cell);
      var s := NeighbourSentence(cell, count);
      if |s.cells| > 0 && s !in knowledge {
        knowledge := knowledge + [s];
      }
    }

    /** `add_knowledge(cell, count)`: observe, then infer until a pass
        changes nothing or `fuel` passes have run; `settled` says which. */
    method AddKnowledge(cell: Cell, count: int, fuel: nat) returns (settled: bool)
      modifies this
      ensures (View(), settled) == Inference.AddKnowledge(old(View()), height, width, cell, count, fuel)
      ensures movesMade == old(movesMade) + {cell} && cell in safes
      ensures old(mines) <= mines && old(safes) <= safes
      ensures old(View()).Clean() ==> View().Clean()
      ensures settled ==> View().FixedPoint()
    {
      ghost var start := old(View());
      ghost var goal := Inference.AddKnowledge(start, height, width, cell, count, fuel);
      Observe(cell, count);
      var changed := true;
      var passes: nat := 0;
      while changed && passes < fuel
        invariant passes <= fuel
        invariant changed ==> Run(View(), fuel - passes) == goal
        invariant !changed ==> (View(), true) == goal
        decreases fuel - passes
      {
        RunStep(View(), fuel - passes);
        changed := InferencePass();
        passes := passes + 1;
      }
      if changed {
        RunOut(View());
      }
      settled := !changed;
      AddKnowledgeFacts(start, height, width, cell, count, fuel);
    }

    /** A known safe cell not yet clicked, if there is one. */
    method MakeSafeMove() returns (move: Option<Cell>)
      ensures move.Some? ==> move.value in safes && move.value !in movesMade
      ensures move.None? <==> safes <= movesMade
    {
      var rest := safes;
      while rest != {}
        invariant rest <= safes
        invariant forall c {:trigger c in safes} :: c in safes && c !in rest ==> c in movesMade
        decreases |rest|
      {
        var c :| c in rest;
        if c !in movesMade {
          return Some(c);
        }
        rest := rest - {c};
      }
      return None;
    }

    /** The cells a random move chooses among: every cell of the grid not
        clicked and not a known mine, in row-major order. */
    method RandomMoveCandidates() returns (possible: seq<Cell>)
      ensures forall c {:trigger c in possible} :: c in possible <==> InGrid(height, width, c) && c !in movesMade && c !in mines
      ensures RowMajor(possible)
    {
      possible := [];
      var i := 0;
      while i < height
        invariant 0 <= i && (i <= height || i == 0)
        invariant forall c {:trigger c in possible} :: c in possible <==>
          InGrid(height, width, c) && c !in movesMade && c !in mines && c.0 < i
        invariant RowMajor(possible)
        invariant forall k :: 0 <= k < |possible| ==> possible[k].0 < i
      {
        var j := 0;
        while j < width
          invariant 0 <= j && (j <= width || j == 0)
          invariant forall c {:trigger c in possible} :: c in possible <==>
            InGrid(height, width, c) && c !in movesMade && c !in mines && Before(c, i, j)
          invariant RowMajor(possible)
          invariant forall k :: 0 <= k < |possible| ==> Before(possible[k], i, j)
        {
          var cellule := (i, j);
          if cellule !in movesMade && cellule !in mines {
            possible := possible + [cellule];
          }
          j := j + 1;
        }
        i := i + 1;
      }
    }

    /** `make_random_move`: one of the candidates, chosen by `choice` (the
        random draw), or none when there are no candidates. */
    method MakeRandomMove(choice: nat) returns (move: Option<Cell>)
      ensures move.Some? ==> InGrid(height, width, move.value) && move.value !in movesMade && move.value !in mines
      ensures move.None? <==> forall c {:trigger InGrid(height, width, c)} :: InGrid(height, width, c) ==> c in movesMade || c in mines
    {
      var possible := RandomMoveCandidates();
      if |possible| > 0 {
        var cell := possible[choice % |possible|];
        assert cell in possible;
        move := Some(cell);
      } else {
        forall c | InGrid(height, width, c) ensures c in movesMade || c in mines {
          assert c !in possible;
        }
        move := None;
      }
    }
  }
}
