/** The knowledge base of the player as a value, and the inference it runs
    after every observation, written as functions. The class in module
    `Player` performs the same steps in place; its methods are proved to
    leave exactly the state these functions describe. */
module Inference {
  import opened Grid
  import opened Sentences

  /** Cells clicked, cells known to be mines, cells known to be safe, and
      the sentences still in play, in list order. */
  datatype State = State(movesMade: set<Cell>, mines: set<Cell>, safes: set<Cell>, knowledge: seq<Sentence>)
  {
    /** Record that `c` is a mine and tell every sentence. */
    function MarkMine(c: Cell): State
    {
      State(movesMade, mines + {c}, safes, MarkMineAll(knowledge, c))
    }

    /** Record that `c` is safe and tell every sentence. */
    function MarkSafe(c: Cell): State
    {
      State(movesMade, mines, safes + {c}, MarkSafeAll(knowledge, c))
    }

    /** The first part of `add_knowledge`: the clicked cell is a move made and
        safe, and the sentence about its unknown neighbours joins the
        knowledge when it has cells and is not already there. */
    function Observe(height: int, width: int, cell: Cell, count: int): State
    {
      var st := State(movesMade + {cell}, mines, safes, knowledge).MarkSafe(cell);
      var s := NewSentence(height, width, st.mines, st.safes, cell, count);
      if |s.cells| > 0 && s !in st.knowledge then st.(knowledge := st.knowledge + [s]) else st
    }

    /** One pass of the inference loop, and whether it changed anything:
        resolve what single sentences prove, mark it (safe cells first),
        drop the sentences left without cells, then add what the subset
        rule derives. */
    function Pass(): (State, bool)
    {
      var kept := NonEmpty(Marked());
      var derived := Derived(kept);
      (State(movesMade, mines + NewMines(), safes + NewSafes(), kept + derived),
       NewSafes() != {} || NewMines() != {} || |kept| < |Marked()| || derived != [])
    }

    /** Cells some sentence proves safe that are not yet known safe. */
    function NewSafes(): set<Cell>
    {
      KnownSafesOf(knowledge) - safes
    }

    /** Cells some sentence proves to be mines that are not yet known mines. */
    function NewMines(): set<Cell>
    {
      KnownMinesOf(knowledge) - mines
    }

    /** The sentences after the new safe cells, then the new mines, are marked. */
    function Marked(): seq<Sentence>
    {
      MarkMinesAll(MarkSafesAll(knowledge, NewSafes()), NewMines())
    }

    /** Nothing left to resolve: no sentence is empty and everything a
        sentence proves on its own is already recorded. */
    predicate FixedPoint()
    {
      forall k :: 0 <= k < |knowledge| ==>
        && knowledge[k].cells != {}
        && knowledge[k].KnownSafes() <= safes
        && knowledge[k].KnownMines() <= mines
    }

    /** Every sentence mentions only cells whose status is unknown. */
    predicate Clean()
    {
      AllClear(knowledge, mines, safes)
    }

    /** The knowledge is true of the placement of mines `t`. */
    predicate SoundFor(t: set<Cell>)
    {
      && mines <= t
      && safes !! t
      && AllHold(knowledge, t)
    }
  }

  /** No sentence of `ks` mentions a cell of `mines` or of `safes`. */
  predicate AllClear(ks: seq<Sentence>, mines: set<Cell>, safes: set<Cell>)
  {
    forall k :: 0 <= k < |ks| ==> ks[k].cells !! mines && ks[k].cells !! safes
  }

  /** Every sentence of `ks` is true of the placement of mines `t`. */
  predicate AllHold(ks: seq<Sentence>, t: set<Cell>)
  {
    forall k :: 0 <= k < |ks| ==> ks[k].HoldsFor(t)
  }

  /** The loop `while change_made`, cut off after `fuel` rounds of `step`.
      The flag says whether a round made no change (the loop settled). */
  function Loop(step: State -> (State, bool), st: State, fuel: nat): (State, bool)
    decreases fuel
  {
    if fuel == 0 then (st, false)
    else
      var next := step(st);
      if !next.1 then (next.0, true) else Loop(step, next.0, fuel - 1)
  }

  /** One pass, as a step of the loop. */
  function PassStep(st: State): (State, bool)
  {
    st.Pass()
  }

  /** The inference loop of `add_knowledge`: passes until one changes
      nothing, at most `fuel` of them. */
  function Run(st: State, fuel: nat): (State, bool)
  {
    Loop(PassStep, st, fuel)
  }

  /** One more pass of the loop. */
  lemma RunStep(st: State, fuel: nat)
    requires fuel > 0
    ensures Run(st, fuel) == if !st.Pass().1 then (st.Pass().0, true) else Run(st.Pass().0, fuel - 1)
  {
  }

  /** With no passes left the loop stops where it is, unsettled. */
  lemma RunOut(st: State)
    ensures Run(st, 0) == (st, false)
  {
  }

  /** What every round keeps, the loop keeps. */
  /** When no step forgets a fact, the facts of the first step survive the
      loop. */
  lemma LoopKeepsFirst(step: State -> (State, bool), st: State, fuel: nat)
    requires fuel > 0
    requires forall s: State :: s.mines <= step(s).0.mines && s.safes <= step(s).0.safes
    ensures step(st).0.mines <= Loop(step, st, fuel).0.mines && step(st).0.safes <= Loop(step, st, fuel).0.safes
  {
    var first := step(st).0;
    if step(st).1 {
      LoopKeeps(step, (s: State) => first.mines <= s.mines && first.safes <= s.safes, first, fuel - 1);
    }
  }

  lemma {:induction false} LoopKeeps(step: State -> (State, bool), inv: State -> bool, st: State, fuel: nat)
    requires inv(st)
    requires forall s :: inv(s) ==> inv(step(s).0)
    ensures inv(Loop(step, st, fuel).0)
    decreases fuel
  {
    if fuel > 0 && step(st).1 {
      LoopKeeps(step, inv, step(st).0, fuel - 1);
    }
  }

  /** What every round establishes holds once the loop has made a round. */
  lemma {:induction false} LoopEstablishes(step: State -> (State, bool), goal: State -> bool, st: State, fuel: nat)
    requires fuel > 0
    requires forall s :: goal(step(s).0)
    ensures goal(Loop(step, st, fuel).0)
    decreases fuel
  {
    if step(st).1 && fuel > 1 {
      LoopEstablishes(step, goal, step(st).0, fuel - 1);
    }
  }

  /** What a round that changes nothing establishes holds when the loop
      settles. */
  lemma {:induction false} LoopSettles(step: State -> (State, bool), goal: State -> bool, st: State, fuel: nat)
    requires forall s :: !step(s).1 ==> goal(step(s).0)
    ensures Loop(step, st, fuel).1 ==> goal(Loop(step, st, fuel).0)
    decreases fuel
  {
    if fuel > 0 && step(st).1 {
      LoopSettles(step, goal, step(st).0, fuel - 1);
    }
  }

  function AddKnowledge(st: State, height: int, width: int, cell: Cell, count: int, fuel: nat): (State, bool)
  {
    Run(st.Observe(height, width, cell, count), fuel)
  }

  /** The sentence built from an observation: the in-grid neighbours of
      `cell` whose status is unknown, with the count reduced by the known
      mines around it. */
  function NewSentence(height: int, width: int, mines: set<Cell>, safes: set<Cell>, cell: Cell, count: int): Sentence
  {
    var unknown := set p | p in Neighbours(cell) && InGrid(height, width, p) && p !in mines && p !in safes;
    Sentence(unknown, count - |MarkedAround(height, width, mines, cell)|)
  }

  // ---------------------------------------------------------------------
  // Broadcasting facts to every sentence

  function MarkMineAll(ks: seq<Sentence>, c: Cell): seq<Sentence>
  {
    seq(|ks|, k requires 0 <= k < |ks| => ks[k].MarkMine(c))
  }

  function MarkSafeAll(ks: seq<Sentence>, c: Cell): seq<Sentence>
  {
    seq(|ks|, k requires 0 <= k < |ks| => ks[k].MarkSafe(c))
  }

  function MarkMinesAll(ks: seq<Sentence>, m: set<Cell>): seq<Sentence>
  {
    seq(|ks|, k requires 0 <= k < |ks| => ks[k].MarkMines(m))
  }

  function MarkSafesAll(ks: seq<Sentence>, s: set<Cell>): seq<Sentence>
  {
    seq(|ks|, k requires 0 <= k < |ks| => ks[k].MarkSafes(s))
  }

  /** Marking the cells of a set one at a time, in any order, is marking the set. */
  lemma MarkMinesAllStep(ks: seq<Sentence>, m: set<Cell>, c: Cell)
    ensures MarkMineAll(MarkMinesAll(ks, m), c) == MarkMinesAll(ks, m + {c})
  {
    forall k | 0 <= k < |ks| ensures MarkMineAll(MarkMinesAll(ks, m), c)[k] == MarkMinesAll(ks, m + {c})[k] {
      MarkMinesStep(ks[k], m, c);
    }
  }

  lemma MarkSafesAllStep(ks: seq<Sentence>, m: set<Cell>, c: Cell)
    ensures MarkSafeAll(MarkSafesAll(ks, m), c) == MarkSafesAll(ks, m + {c})
  {
    forall k | 0 <= k < |ks| ensures MarkSafeAll(MarkSafesAll(ks, m), c)[k] == MarkSafesAll(ks, m + {c})[k] {
      MarkSafesStep(ks[k], m, c);
    }
  }

  lemma MarkNothing(ks: seq<Sentence>)
    ensures MarkSafesAll(ks, {}) == ks && MarkMinesAll(ks, {}) == ks
  {
    forall k | 0 <= k < |ks| ensures MarkMinesAll(ks, {})[k] == ks[k] {
      assert ks[k].cells * {} == {};
    }
  }

  // ---------------------------------------------------------------------
  // Direct resolution

  /** The cells the sentences prove safe, gathered in list order. */
  function KnownSafesOf(ks: seq<Sentence>): set<Cell>
  {
    if ks == [] then {} else KnownSafesOf(ks[..|ks| - 1]) + ks[|ks| - 1].KnownSafes()
  }

  /** The cells the sentences prove to be mines, gathered in list order. */
  function KnownMinesOf(ks: seq<Sentence>): set<Cell>
  {
    if ks == [] then {} else KnownMinesOf(ks[..|ks| - 1]) + ks[|ks| - 1].KnownMines()
  }

  /** Direct resolution finds exactly the cells that some single sentence
      proves safe, or proves to be mines. */
  lemma {:induction false} KnownOfSpec(ks: seq<Sentence>)
    ensures forall c :: c in KnownSafesOf(ks) <==> exists k :: 0 <= k < |ks| && c in ks[k].KnownSafes()
    ensures forall c :: c in KnownMinesOf(ks) <==> exists k :: 0 <= k < |ks| && c in ks[k].KnownMines()
  {
    if ks != [] {
      var init := ks[..|ks| - 1];
      KnownOfSpec(init);
      assert forall k :: 0 <= k < |init| ==> init[k] == ks[k];
    }
  }

  /** Gathering one more sentence adds what it proves. */
  lemma KnownOfStep(ks: seq<Sentence>, k: nat)
    requires k < |ks|
    ensures KnownSafesOf(ks[..k + 1]) == KnownSafesOf(ks[..k]) + ks[k].KnownSafes()
    ensures KnownMinesOf(ks[..k + 1]) == KnownMinesOf(ks[..k]) + ks[k].KnownMines()
  {
    assert ks[..k + 1][..k] == ks[..k];
  }

  // ---------------------------------------------------------------------
  // Pruning

  /** The sentences that still have cells, in order. */
  function NonEmpty(ks: seq<Sentence>): seq<Sentence>
  {
    if ks == [] then []
    else if ks[0].cells == {} then NonEmpty(ks[1..])
    else [ks[0]] + NonEmpty(ks[1..])
  }

  /** The sentences without cells, in order. */
  function Empties(ks: seq<Sentence>): seq<Sentence>
  {
    if ks == [] then []
    else if ks[0].cells == {} then [ks[0]] + Empties(ks[1..])
    else Empties(ks[1..])
  }

  /** Pruning keeps exactly the sentences with cells, and shortens the list
      exactly when some sentence has none; the empty ones are the rest. */
  lemma {:induction false} NonEmptySpec(ks: seq<Sentence>)
    ensures forall s {:trigger s in NonEmpty(ks)} :: s in NonEmpty(ks) <==> s in ks && s.cells != {}
    ensures forall k :: 0 <= k < |NonEmpty(ks)| ==> NonEmpty(ks)[k].cells != {}
    ensures forall s {:trigger s in Empties(ks)} :: s in Empties(ks) <==> s in ks && s.cells == {}
    ensures |NonEmpty(ks)| + |Empties(ks)| == |ks|
    ensures (forall k :: 0 <= k < |ks| ==> ks[k].cells != {}) <==> NonEmpty(ks) == ks
  {
    if ks != [] {
      NonEmptySpec(ks[1..]);
      assert forall k :: 1 <= k < |ks| ==> ks[k] == ks[1..][k - 1];
      assert ks == [ks[0]] + ks[1..];
      if ks[0].cells == {} {
        assert |NonEmpty(ks)| < |ks|;
      }
    }
  }

  /** A list with no empty sentence is left as it is by pruning. */
  lemma {:induction false} NoEmpties(ks: seq<Sentence>)
    requires Empties(ks) == []
    ensures NonEmpty(ks) == ks
  {
    if ks != [] {
      NoEmpties(ks[1..]);
    }
  }

  /** Python's `list.remove`: drop the first entry equal to `x`. */
  function RemoveFirst(ks: seq<Sentence>, x: Sentence): seq<Sentence>
  {
    if ks == [] then []
    else if ks[0] == x then ks[1..]
    else [ks[0]] + RemoveFirst(ks[1..], x)
  }

  lemma {:induction false} EmptiesAppend(ks: seq<Sentence>, s: Sentence)
    ensures Empties(ks + [s]) == Empties(ks) + (if s.cells == {} then [s] else [])
  {
    if ks != [] {
      assert (ks + [s])[1..] == ks[1..] + [s];
      EmptiesAppend(ks[1..], s);
    }
  }

  /** Removing one empty sentence leaves the non-empty ones alone and takes
      exactly that sentence out of the empty ones. */
  lemma {:induction false} RemoveFirstEmpty(ks: seq<Sentence>, x: Sentence)
    requires x in ks && x.cells == {}
    ensures NonEmpty(RemoveFirst(ks, x)) == NonEmpty(ks)
    ensures |RemoveFirst(ks, x)| == |ks| - 1
    ensures multiset(Empties(RemoveFirst(ks, x))) == multiset(Empties(ks)) - multiset{x}
  {
    if ks[0] != x {
      assert x in ks[1..];
      RemoveFirstEmpty(ks[1..], x);
      assert RemoveFirst(ks, x) == [ks[0]] + RemoveFirst(ks[1..], x);
      assert RemoveFirst(ks, x)[1..] == RemoveFirst(ks[1..], x);
    }
  }

  /** Part way through pruning `start`: `ks` keeps the sentences with cells
      of `start`, and its sentences without cells are those `pending`
      removal. */
  ghost predicate Pruning(start: seq<Sentence>, ks: seq<Sentence>, pending: seq<Sentence>)
  {
    && NonEmpty(ks) == NonEmpty(start)
    && multiset(Empties(ks)) == multiset(pending)
    && |ks| == |NonEmpty(start)| + |pending|
  }

  /** Pruning starts with every empty sentence pending. */
  lemma PruneStart(ks: seq<Sentence>)
    ensures Pruning(ks, ks, Empties(ks))
    ensures |ks| == |NonEmpty(ks)| + |Empties(ks)|
  {
    NonEmptySpec(ks);
  }

  /** The next pending sentence is still in the list, and removing its
      first occurrence keeps pruning on track. */
  lemma PruneStep(start: seq<Sentence>, ks: seq<Sentence>, pending: seq<Sentence>)
    requires Pruning(start, ks, pending) && pending != []
    ensures pending[0] in ks
    ensures Pruning(start, RemoveFirst(ks, pending[0]), pending[1..])
  {
    var x := pending[0];
    assert pending == [x] + pending[1..];
    assert multiset(pending) == multiset{x} + multiset(pending[1..]);
    assert x in multiset(Empties(ks));
    assert x in Empties(ks);
    NonEmptySpec(ks);
    RemoveFirstEmpty(ks, x);
    assert multiset(Empties(RemoveFirst(ks, x))) == multiset(pending[1..]);
  }

  /** With nothing pending, pruning is done. */
  lemma PruneDone(start: seq<Sentence>, ks: seq<Sentence>)
    requires Pruning(start, ks, [])
    ensures ks == NonEmpty(start)
  {
    assert |Empties(ks)| == |multiset(Empties(ks))| == 0;
    NoEmpties(ks);
  }

  // ---------------------------------------------------------------------
  // The subset rule

  /** What the subset rule derives from the ordered pair (s1, s2), with the
      checks in the order the loop makes them. */
  function Candidate(s1: Sentence, s2: Sentence): Option<Sentence>
  {
    if s1 != s2 && s1.cells <= s2.cells && s1.cells != s2.cells && |s2.cells| > 0
       && |s2.cells - s1.cells| > 0
    then Some(Sentence(s2.cells - s1.cells, s2.count - s1.count))
    else None
  }

  /** Consider the pair (s1, s2): keep its candidate if it is new. */
  function Consider(ks: seq<Sentence>, acc: seq<Sentence>, s1: Sentence, s2: Sentence): seq<Sentence>
  {
    match Candidate(s1, s2)
    case Some(d) => if d !in ks && d !in acc then acc + [d] else acc
    case None => acc
  }

  /** After pairing `s1` with the first `n` sentences of `ks`. */
  function Row(ks: seq<Sentence>, s1: Sentence, acc: seq<Sentence>, n: nat): seq<Sentence>
    requires n <= |ks|
  {
    if n == 0 then acc else Consider(ks, Row(ks, s1, acc, n - 1), s1, ks[n - 1])
  }

  /** After the first `m` rows of the pairwise scan. */
  function DerivedUpTo(ks: seq<Sentence>, m: nat): seq<Sentence>
    requires m <= |ks|
  {
    if m == 0 then [] else Row(ks, ks[m - 1], DerivedUpTo(ks, m - 1), |ks|)
  }

  /** The scan of a row moves on by one sentence. */
  lemma RowNext(ks: seq<Sentence>, s1: Sentence, acc: seq<Sentence>, n: nat)
    requires n < |ks|
    ensures Row(ks, s1, acc, n + 1) == Consider(ks, Row(ks, s1, acc, n), s1, ks[n])
  {
  }

  /** The scan moves on by one row. */
  lemma DerivedUpToNext(ks: seq<Sentence>, m: nat)
    requires m < |ks|
    ensures DerivedUpTo(ks, m + 1) == Row(ks, ks[m], DerivedUpTo(ks, m), |ks|)
  {
  }

  /** The sentences the subset rule derives from `ks` in one pass, in order. */
  function Derived(ks: seq<Sentence>): seq<Sentence>
  {
    DerivedUpTo(ks, |ks|)
  }

  ghost predicate Distinct(xs: seq<Sentence>)
  {
    forall a, b :: 0 <= a < b < |xs| ==> xs[a] != xs[b]
  }

  /** Each derived sentence so far is new, non-empty, and appears once. */
  ghost predicate NewTo(ks: seq<Sentence>, acc: seq<Sentence>)
  {
    && Distinct(acc)
    && forall k :: 0 <= k < |acc| ==> acc[k] !in ks && acc[k].cells != {}
  }

  /** `d` is new and derived from (s1, ks[k]) for one of the first `n` sentences. */
  ghost predicate InRow(ks: seq<Sentence>, s1: Sentence, n: nat, d: Sentence)
    requires n <= |ks|
  {
    n > 0 && (InRow(ks, s1, n - 1, d) || (d !in ks && Candidate(s1, ks[n - 1]) == Some(d)))
  }

  /** `d` is new and derived from (ks[i], ks[k]) for one of the first `m` sentences ks[i]. */
  ghost predicate InTable(ks: seq<Sentence>, m: nat, d: Sentence)
    requires m <= |ks|
  {
    m > 0 && (InTable(ks, m - 1, d) || InRow(ks, ks[m - 1], |ks|, d))
  }

  /** A row that holds `d` has a pair that yields it. */
  lemma {:induction false} InRowWitness(ks: seq<Sentence>, s1: Sentence, n: nat, d: Sentence)
    requires n <= |ks| && InRow(ks, s1, n, d)
    ensures d !in ks && exists k :: 0 <= k < n && Candidate(s1, ks[k]) == Some(d)
  {
    if InRow(ks, s1, n - 1, d) {
      InRowWitness(ks, s1, n - 1, d);
    } else {
      assert Candidate(s1, ks[n - 1]) == Some(d);
    }
  }

  /** A pair that yields a new `d` puts it in the row. */
  lemma {:induction false} InRowFrom(ks: seq<Sentence>, s1: Sentence, n: nat, k: nat, d: Sentence)
    requires k < n <= |ks| && d !in ks && Candidate(s1, ks[k]) == Some(d)
    ensures InRow(ks, s1, n, d)
  {
    if k < n - 1 {
      InRowFrom(ks, s1, n - 1, k, d);
    }
  }

  /** A table that holds `d` has a row that holds it. */
  lemma {:induction false} InTableWitness(ks: seq<Sentence>, m: nat, d: Sentence)
    requires m <= |ks| && InTable(ks, m, d)
    ensures exists i :: 0 <= i < m && InRow(ks, ks[i], |ks|, d)
  {
    if InTable(ks, m - 1, d) {
      InTableWitness(ks, m - 1, d);
    } else {
      assert InRow(ks, ks[m - 1], |ks|, d);
    }
  }

  /** A row that holds `d` puts it in the table. */
  lemma {:induction false} InTableFrom(ks: seq<Sentence>, m: nat, i: nat, d: Sentence)
    requires i < m <= |ks| && InRow(ks, ks[i], |ks|, d)
    ensures InTable(ks, m, d)
  {
    if i < m - 1 {
      InTableFrom(ks, m - 1, i, d);
    }
  }

  /** The subset rule's candidate exists exactly for a strict subset, and is
      the difference of cells and of counts: the remaining checks are implied. */
  lemma CandidateShape(s1: Sentence, s2: Sentence)
    ensures Candidate(s1, s2).Some? <==> s1.cells < s2.cells
    ensures Candidate(s1, s2).Some? ==>
      Candidate(s1, s2).value == Sentence(s2.cells - s1.cells, s2.count - s1.count)
      && Candidate(s1, s2).value.cells != {}
  {
    if s1.cells < s2.cells {
      var d := s2.cells - s1.cells;
      assert |s2.cells| == |s1.cells| + |d| by {
        assert s2.cells == s1.cells + d;
      }
      assert d != {};
    }
  }

  lemma ConsiderSpec(ks: seq<Sentence>, acc: seq<Sentence>, s1: Sentence, s2: Sentence)
    requires NewTo(ks, acc)
    ensures NewTo(ks, Consider(ks, acc, s1, s2))
    ensures forall d {:trigger d in Consider(ks, acc, s1, s2)} :: d in Consider(ks, acc, s1, s2) <==>
      d in acc || (Candidate(s1, s2) == Some(d) && d !in ks)
  {
    CandidateShape(s1, s2);
  }

  lemma {:induction false} RowSpec(ks: seq<Sentence>, s1: Sentence, acc: seq<Sentence>, n: nat)
    requires n <= |ks|
    requires NewTo(ks, acc)
    ensures NewTo(ks, Row(ks, s1, acc, n))
    ensures forall d {:trigger d in Row(ks, s1, acc, n)} :: d in Row(ks, s1, acc, n) <==> d in acc || InRow(ks, s1, n, d)
  {
    if n > 0 {
      RowSpec(ks, s1, acc, n - 1);
      ConsiderSpec(ks, Row(ks, s1, acc, n - 1), s1, ks[n - 1]);
    }
  }

  lemma {:induction false} DerivedUpToSpec(ks: seq<Sentence>, m: nat)
    requires m <= |ks|
    ensures NewTo(ks, DerivedUpTo(ks, m))
    ensures forall d {:trigger d in DerivedUpTo(ks, m)} :: d in DerivedUpTo(ks, m) <==> InTable(ks, m, d)
  {
    if m > 0 {
      DerivedUpToSpec(ks, m - 1);
      RowSpec(ks, ks[m - 1], DerivedUpTo(ks, m - 1), |ks|);
    }
  }

  /** The subset rule: every derived sentence is the difference of a
      sentence of `ks` and a strict subset of it; it has cells, it is not in
      `ks`, and it is derived once; and every such difference not in `ks` is
      derived. */
  lemma DerivedSpec(ks: seq<Sentence>)
    ensures forall a, b :: 0 <= a < b < |Derived(ks)| ==> Derived(ks)[a] != Derived(ks)[b]
    ensures forall d {:trigger d in Derived(ks)} :: d in Derived(ks) ==> d !in ks && d.cells != {}
    ensures forall d :: d in Derived(ks) ==>
      exists i, k :: 0 <= i < |ks| && 0 <= k < |ks| && ks[i].cells < ks[k].cells
        && d == Sentence(ks[k].cells - ks[i].cells, ks[k].count - ks[i].count)
    ensures forall i, k :: 0 <= i < |ks| && 0 <= k < |ks| && ks[i].cells < ks[k].cells ==>
      Sentence(ks[k].cells - ks[i].cells, ks[k].count - ks[i].count) in ks + Derived(ks)
  {
    DerivedNew(ks);
    forall d | d in Derived(ks)
      ensures (exists i, k :: 0 <= i < |ks| && 0 <= k < |ks| && ks[i].cells < ks[k].cells
                 && d == Sentence(ks[k].cells - ks[i].cells, ks[k].count - ks[i].count))
    {
      DerivedFrom(ks, d);
    }
    forall i, k | 0 <= i < |ks| && 0 <= k < |ks| && ks[i].cells < ks[k].cells
      ensures Sentence(ks[k].cells - ks[i].cells, ks[k].count - ks[i].count) in ks + Derived(ks)
    {
      DerivedComplete(ks, i, k);
    }
  }

  /** What the subset rule derives is new, has cells, and is listed once. */
  lemma DerivedNew(ks: seq<Sentence>)
    ensures forall a, b :: 0 <= a < b < |Derived(ks)| ==> Derived(ks)[a] != Derived(ks)[b]
    ensures forall d {:trigger d in Derived(ks)} :: d in Derived(ks) ==> d !in ks && d.cells != {}
  {
    DerivedUpToSpec(ks, |ks|);
  }

  /** Each derived sentence is the difference of a strict subset pair. */
  lemma DerivedFrom(ks: seq<Sentence>, d: Sentence)
    requires d in Derived(ks)
    ensures exists i, k ::
      && 0 <= i < |ks| && 0 <= k < |ks| && ks[i].cells < ks[k].cells
      && d == Sentence(ks[k].cells - ks[i].cells, ks[k].count - ks[i].count)
  {
    DerivedUpToSpec(ks, |ks|);
    InTableWitness(ks, |ks|, d);
    var i :| 0 <= i < |ks| && InRow(ks, ks[i], |ks|, d);
    InRowWitness(ks, ks[i], |ks|, d);
    var k :| 0 <= k < |ks| && Candidate(ks[i], ks[k]) == Some(d);
    CandidateShape(ks[i], ks[k]);
  }

  /** The difference of every strict subset pair is known afterwards. */
  lemma DerivedComplete(ks: seq<Sentence>, i: int, k: int)
    requires 0 <= i < |ks| && 0 <= k < |ks| && ks[i].cells < ks[k].cells
    ensures Sentence(ks[k].cells - ks[i].cells, ks[k].count - ks[i].count) in ks + Derived(ks)
  {
    DerivedUpToSpec(ks, |ks|);
    CandidateShape(ks[i], ks[k]);
    var d := Sentence(ks[k].cells - ks[i].cells, ks[k].count - ks[i].count);
    if d !in ks {
      InRowFrom(ks, ks[i], |ks|, k, d);
      InTableFrom(ks, |ks|, i, d);
    }
  }

  /** The example of a subset inference: {A, B} holds one mine and
      {A, B, C} two, so {C} holds one. */
  lemma SubsetExample(a: Cell, b: Cell, c: Cell)
    requires a != b && b != c && a != c
    ensures Derived([Sentence({a, b}, 1), Sentence({a, b, c}, 2)]) == [Sentence({c}, 1)]
  {
    var s1, s2 := Sentence({a, b}, 1), Sentence({a, b, c}, 2);
    var ks := [s1, s2];
    assert {a, b, c} - {a, b} == {c};
    assert Candidate(s1, s1) == None;
    assert Candidate(s1, s2) == Some(Sentence({c}, 1));
    assert Candidate(s2, s1) == None by {
      assert c in s2.cells && c !in s1.cells;
    }
    assert Candidate(s2, s2) == None;
    var d := Sentence({c}, 1);
    assert d != s1 && d != s2;
    assert Row(ks, s1, [], 1) == [];
    assert Row(ks, s1, [], 2) == [d];
    assert DerivedUpTo(ks, 1) == [d];
    assert Row(ks, s2, [d], 1) == [d];
    assert Row(ks, s2, [d], 2) == [d];
  }

  // ---------------------------------------------------------------------
  // Broadcasting a single fact

  /** After marking `c` a mine: `c` is a known mine, no sentence mentions it,
      each sentence is updated in its place, and nothing else changes. */
  lemma MarkMineEffect(st: State, c: Cell)
    ensures c in st.MarkMine(c).mines && st.MarkMine(c).mines == st.mines + {c}
    ensures forall k :: 0 <= k < |st.MarkMine(c).knowledge| ==> c !in st.MarkMine(c).knowledge[k].cells
    ensures forall k :: 0 <= k < |st.knowledge| ==>
      st.MarkMine(c).knowledge[k] == st.knowledge[k].MarkMine(c)
    ensures st.MarkMine(c).safes == st.safes && st.MarkMine(c).movesMade == st.movesMade
    ensures |st.MarkMine(c).knowledge| == |st.knowledge|
  {
  }

  /** Marking the same mine twice is marking it once. */
  lemma MarkMineTwice(st: State, c: Cell)
    ensures st.MarkMine(c).MarkMine(c) == st.MarkMine(c)
  {
    var once := st.MarkMine(c);
    forall k | 0 <= k < |st.knowledge| ensures once.MarkMine(c).knowledge[k] == once.knowledge[k] {
      MarkMineIdempotent(st.knowledge[k], c);
    }
  }

  /** After marking `c` safe: `c` is a known safe, no sentence mentions it,
      counts are untouched, and nothing else changes. */
  lemma MarkSafeEffect(st: State, c: Cell)
    ensures c in st.MarkSafe(c).safes && st.MarkSafe(c).safes == st.safes + {c}
    ensures forall k :: 0 <= k < |st.MarkSafe(c).knowledge| ==> c !in st.MarkSafe(c).knowledge[k].cells
    ensures forall k :: 0 <= k < |st.knowledge| ==>
      st.MarkSafe(c).knowledge[k] == st.knowledge[k].MarkSafe(c)
    ensures st.MarkSafe(c).mines == st.mines && st.MarkSafe(c).movesMade == st.movesMade
    ensures |st.MarkSafe(c).knowledge| == |st.knowledge|
  {
  }

  /** Marking the same safe cell twice is marking it once. */
  lemma MarkSafeTwice(st: State, c: Cell)
    ensures st.MarkSafe(c).MarkSafe(c) == st.MarkSafe(c)
  {
    var once := st.MarkSafe(c);
    forall k | 0 <= k < |st.knowledge| ensures once.MarkSafe(c).knowledge[k] == once.knowledge[k] {
      MarkMineIdempotent(st.knowledge[k], c);
    }
  }

  /** Marking keeps every sentence free of known cells. */
  lemma MarkClean(st: State, c: Cell)
    requires st.Clean()
    ensures st.MarkMine(c).Clean() && st.MarkSafe(c).Clean()
  {
  }

  /** Marking a true fact keeps true knowledge true. */
  lemma MarkStateSound(st: State, t: set<Cell>, c: Cell)
    requires st.SoundFor(t)
    ensures c in t ==> st.MarkMine(c).SoundFor(t)
    ensures c !in t ==> st.MarkSafe(c).SoundFor(t)
  {
    forall k | 0 <= k < |st.knowledge| {
      MarkSound(st.knowledge[k], t, c);
    }
  }

  // ---------------------------------------------------------------------
  // Observation

  /** The new sentence consists of exactly the in-grid neighbours of the
      clicked cell that are neither known mines nor known safes, and its
      count is the observed count less the known mines around the cell. */
  lemma NewSentenceSpec(height: int, width: int, mines: set<Cell>, safes: set<Cell>, cell: Cell, count: int)
    ensures var s := NewSentence(height, width, mines, safes, cell, count);
      && (forall p {:trigger p in s.cells} :: p in s.cells <==> Adjacent(cell, p) && InGrid(height, width, p) && p !in mines && p !in safes)
      && cell !in s.cells
      && s.count == count - |MarkedAround(height, width, mines, cell)|
  {
  }

  /** A row-major scan of the three-by-three square around `cell` that has
      reached row `i`, column `j` has collected in `unknown` exactly the
      in-grid neighbours passed whose status is unknown, and in `seen`
      exactly those known to be mines. */
  ghost predicate Scanned(height: int, width: int, mines: set<Cell>, safes: set<Cell>, cell: Cell,
                          i: int, j: int, unknown: set<Cell>, seen: set<Cell>)
  {
    && (forall q {:trigger q in unknown} :: q in unknown <==>
          Adjacent(cell, q) && Before(q, i, j) && InGrid(height, width, q) && q !in mines && q !in safes)
    && (forall q {:trigger q in seen} :: q in seen <==>
          Adjacent(cell, q) && Before(q, i, j) && InGrid(height, width, q) && q in mines)
  }

  /** Scanning square `(i, j)` adds it to `unknown` when it is an in-grid
      neighbour of unknown status, and to `seen` (which did not hold it) when
      it is an in-grid neighbour known to be a mine. */
  lemma ScanStep(height: int, width: int, mines: set<Cell>, safes: set<Cell>, cell: Cell,
                 i: int, j: int, unknown: set<Cell>, seen: set<Cell>)
    requires cell.0 - 1 <= i <= cell.0 + 1 && cell.1 - 1 <= j <= cell.1 + 1
    requires Scanned(height, width, mines, safes, cell, i, j, unknown, seen)
    ensures var p := (i, j);
      var near := p != cell && 0 <= i < height && 0 <= j < width;
      && (near && p in mines ==> p !in seen)
      && Scanned(height, width, mines, safes, cell, i, j + 1,
           if near && p !in mines && p !in safes then unknown + {p} else unknown,
           if near && p in mines then seen + {p} else seen)
  {
    assert Adjacent(cell, (i, j)) <==> (i, j) != cell;
  }

  /** Passing from the end of one row of the square to the start of the next. */
  lemma ScanNextRow(height: int, width: int, mines: set<Cell>, safes: set<Cell>, cell: Cell,
                    i: int, unknown: set<Cell>, seen: set<Cell>)
    requires Scanned(height, width, mines, safes, cell, i, cell.1 + 2, unknown, seen)
    ensures Scanned(height, width, mines, safes, cell, i + 1, cell.1 - 1, unknown, seen)
  {
  }

  /** A scan that has passed the whole square has built the new sentence,
      once one mine is taken off the count for each known mine seen. */
  lemma ScanDone(height: int, width: int, mines: set<Cell>, safes: set<Cell>, cell: Cell, count: int,
                 unknown: set<Cell>, seen: set<Cell>)
    requires Scanned(height, width, mines, safes, cell, cell.0 + 2, cell.1 - 1, unknown, seen)
    ensures Sentence(unknown, count - |seen|) == NewSentence(height, width, mines, safes, cell, count)
  {
    AroundExactly(height, width, mines, cell, seen);
    NewSentenceSpec(height, width, mines, safes, cell, count);
    assert unknown == NewSentence(height, width, mines, safes, cell, count).cells;
  }

  /** After observing, the cell is a move made and known safe; the existing
      sentences are those after marking it safe, and the new sentence follows
      them exactly when it has cells and is not already among them. */
  lemma ObserveSpec(st: State, height: int, width: int, cell: Cell, count: int)
    ensures var r := st.Observe(height, width, cell, count);
      var marked := MarkSafeAll(st.knowledge, cell);
      var s := NewSentence(height, width, st.mines, st.safes + {cell}, cell, count);
      && r.movesMade == st.movesMade + {cell}
      && r.safes == st.safes + {cell}
      && r.mines == st.mines
      && r.knowledge[..|marked|] == marked
      && (|r.knowledge| == |marked| + 1 <==> s.cells != {} && s !in marked)
      && (|r.knowledge| == |marked| + 1 ==> r.knowledge[|marked|] == s)
      && (|r.knowledge| != |marked| + 1 ==> r.knowledge == marked)
  {
  }

  /** Observing keeps every sentence free of known cells. */
  lemma ObserveClean(st: State, height: int, width: int, cell: Cell, count: int)
    requires st.Clean()
    ensures st.Observe(height, width, cell, count).Clean()
  {
    var st1 := State(st.movesMade + {cell}, st.mines, st.safes, st.knowledge);
    MarkClean(st1, cell);
  }

  /** Observing the true number of mines around a safe cell keeps true
      knowledge true. */
  lemma ObserveSound(st: State, t: set<Cell>, height: int, width: int, cell: Cell, count: int)
    requires st.SoundFor(t) && cell !in t
    requires count == |MarkedAround(height, width, t, cell)|
    ensures st.Observe(height, width, cell, count).SoundFor(t)
  {
    var st1 := State(st.movesMade + {cell}, st.mines, st.safes, st.knowledge);
    MarkStateSound(st1, t, cell);
    var st2 := st1.MarkSafe(cell);
    var s := NewSentence(height, width, st2.mines, st2.safes, cell, count);
    var around := MarkedAround(height, width, t, cell);
    var known := MarkedAround(height, width, st2.mines, cell);
    assert around == (s.cells * t) + known;
    assert (s.cells * t) !! known;
  }

  // ---------------------------------------------------------------------
  // One pass

  /** A pass leaves no sentence without cells. */
  lemma PassNoEmpty(st: State)
    ensures forall k :: 0 <= k < |st.Pass().0.knowledge| ==> st.Pass().0.knowledge[k].cells != {}
  {
    var kept := NonEmpty(st.Marked());
    NonEmptySpec(st.Marked());
    DerivedNew(kept);
    var all := kept + Derived(kept);
    forall k | 0 <= k < |all| ensures all[k].cells != {} {
      if k >= |kept| {
        assert all[k] in Derived(kept);
      }
    }
  }

  /** At a fixed point there is nothing new to resolve and nothing to prune. */
  lemma FixedPointQuiet(st: State)
    requires st.FixedPoint()
    ensures st.NewSafes() == {} && st.NewMines() == {}
    ensures st.Marked() == st.knowledge && NonEmpty(st.Marked()) == st.knowledge
  {
    var ks := st.knowledge;
    KnownOfSpec(ks);
    forall c | c in KnownSafesOf(ks) ensures c in st.safes {
      var k :| 0 <= k < |ks| && c in ks[k].KnownSafes();
    }
    forall c | c in KnownMinesOf(ks) ensures c in st.mines {
      var k :| 0 <= k < |ks| && c in ks[k].KnownMines();
    }
    MarkNothing(ks);
    NonEmptySpec(ks);
  }

  /** A pass that changes nothing found the knowledge at a fixed point. */
  lemma QuietFixedPoint(st: State)
    requires st.NewSafes() == {} && st.NewMines() == {}
    requires |NonEmpty(st.Marked())| == |st.Marked()|
    ensures st.Marked() == st.knowledge && NonEmpty(st.Marked()) == st.knowledge
    ensures st.FixedPoint()
  {
    var ks := st.knowledge;
    KnownOfSpec(ks);
    MarkNothing(ks);
    NonEmptySpec(ks);
    assert Empties(ks) == [];
    forall k | 0 <= k < |ks|
      ensures ks[k].cells != {} && ks[k].KnownSafes() <= st.safes && ks[k].KnownMines() <= st.mines
    {
      assert ks[k] !in Empties(ks);
      forall c | c in ks[k].KnownSafes() ensures c in st.safes {
        assert c in KnownSafesOf(ks);
      }
      forall c | c in ks[k].KnownMines() ensures c in st.mines {
        assert c in KnownMinesOf(ks);
      }
    }
  }

  /** A pass changes nothing exactly when the knowledge is at a fixed point
      and the subset rule has nothing new to add. */
  lemma PassSettled(st: State)
    ensures !st.Pass().1 <==> st.FixedPoint() && Derived(st.knowledge) == []
  {
    if st.FixedPoint() {
      FixedPointQuiet(st);
    }
    if !st.Pass().1 {
      NonEmptySpec(st.Marked());
      QuietFixedPoint(st);
    }
  }

  /** A pass that changes nothing leaves the state as it was. */
  lemma PassQuiet(st: State)
    requires !st.Pass().1
    ensures st.Pass().0 == st
  {
    var ks := st.knowledge;
    MarkNothing(ks);
    assert st.Marked() == ks;
    NonEmptySpec(ks);
    assert |Empties(ks)| == 0;
    NoEmpties(ks);
    assert ks + Derived(ks) == ks;
  }

  /** A pass never forgets a fact and never touches the moves made. */
  lemma PassMonotone(st: State)
    ensures st.Pass().0.movesMade == st.movesMade
    ensures st.mines <= st.Pass().0.mines && st.safes <= st.Pass().0.safes
  {
  }

  /** A sentence derived from sentences of `ks` mentions only their cells. */
  lemma DerivedCells(ks: seq<Sentence>, d: Sentence)
    requires d in Derived(ks)
    ensures exists j :: 0 <= j < |ks| && d.cells <= ks[j].cells
  {
    DerivedFrom(ks, d);
    var i, j :| 0 <= i < |ks| && 0 <= j < |ks| && ks[i].cells < ks[j].cells
      && d == Sentence(ks[j].cells - ks[i].cells, ks[j].count - ks[i].count);
  }

  /** Marking new safe cells and mines keeps the sentences free of every
      known cell, old and new. */
  lemma MarkedClear(ks: seq<Sentence>, mines: set<Cell>, safes: set<Cell>, s: set<Cell>, m: set<Cell>)
    requires AllClear(ks, mines, safes)
    ensures AllClear(MarkMinesAll(MarkSafesAll(ks, s), m), mines + m, safes + s)
  {
  }

  /** Pruning the empty sentences and adding what the subset rule derives
      keeps the sentences free of known cells. */
  lemma KeptClear(ks: seq<Sentence>, mines: set<Cell>, safes: set<Cell>)
    requires AllClear(ks, mines, safes)
    ensures AllClear(NonEmpty(ks) + Derived(NonEmpty(ks)), mines, safes)
  {
    var kept := NonEmpty(ks);
    NonEmptySpec(ks);
    assert forall s {:trigger s in kept} :: s in kept ==> s.cells !! mines && s.cells !! safes;
    var all := kept + Derived(kept);
    forall k | 0 <= k < |all| ensures all[k].cells !! mines && all[k].cells !! safes {
      if k >= |kept| {
        assert all[k] in Derived(kept);
        DerivedCells(kept, all[k]);
        var j :| 0 <= j < |kept| && all[k].cells <= kept[j].cells;
        assert kept[j] in kept;
      } else {
        assert all[k] in kept;
      }
    }
  }

  /** A pass keeps every sentence free of known cells. */
  lemma PassClean(st: State)
    requires st.Clean()
    ensures st.Pass().0.Clean()
  {
    MarkedClear(st.knowledge, st.mines, st.safes, st.NewSafes(), st.NewMines());
    KeptClear(st.Marked(), st.mines + st.NewMines(), st.safes + st.NewSafes());
  }

  /** What direct resolution finds in knowledge true of `t` is true of `t`. */
  lemma NewFactsSound(st: State, t: set<Cell>)
    requires st.SoundFor(t)
    ensures st.NewSafes() !! t && st.NewMines() <= t
  {
    var ks := st.knowledge;
    KnownOfSpec(ks);
    forall c | c in st.NewSafes() ensures c !in t {
      var k :| 0 <= k < |ks| && c in ks[k].KnownSafes();
      KnownSound(ks[k], t);
    }
    forall c | c in st.NewMines() ensures c in t {
      var k :| 0 <= k < |ks| && c in ks[k].KnownMines();
      KnownSound(ks[k], t);
    }
  }

  /** The subset rule applied to sentences true of `t` gives sentences true of `t`. */
  lemma DerivedSound(ks: seq<Sentence>, t: set<Cell>)
    requires forall k :: 0 <= k < |ks| ==> ks[k].HoldsFor(t)
    ensures forall d {:trigger d in Derived(ks)} :: d in Derived(ks) ==> d.HoldsFor(t)
  {
    forall d | d in Derived(ks) ensures d.HoldsFor(t) {
      DerivedFrom(ks, d);
      var i, j :| 0 <= i < |ks| && 0 <= j < |ks| && ks[i].cells < ks[j].cells
        && d == Sentence(ks[j].cells - ks[i].cells, ks[j].count - ks[i].count);
      SubsetSound(ks[i], ks[j], t);
    }
  }

  /** Marking true safe cells and true mines keeps true sentences true. */
  lemma MarkedHold(ks: seq<Sentence>, t: set<Cell>, s: set<Cell>, m: set<Cell>)
    requires AllHold(ks, t) && s !! t && m <= t
    ensures AllHold(MarkMinesAll(MarkSafesAll(ks, s), m), t)
  {
    forall k | 0 <= k < |ks| ensures MarkMinesAll(MarkSafesAll(ks, s), m)[k].HoldsFor(t) {
      MarkSetsSound(ks[k], t, s, m);
    }
  }

  /** Pruning the empty sentences and adding what the subset rule derives
      keeps true sentences true. */
  lemma KeptHold(ks: seq<Sentence>, t: set<Cell>)
    requires AllHold(ks, t)
    ensures AllHold(NonEmpty(ks) + Derived(NonEmpty(ks)), t)
  {
    var kept := NonEmpty(ks);
    NonEmptySpec(ks);
    forall k | 0 <= k < |kept| ensures kept[k].HoldsFor(t) {
      assert kept[k] in kept;
      var j :| 0 <= j < |ks| && ks[j] == kept[k];
    }
    DerivedSound(kept, t);
    var all := kept + Derived(kept);
    forall k | 0 <= k < |all| ensures all[k].HoldsFor(t) {
      if k >= |kept| {
        assert all[k] in Derived(kept);
      }
    }
  }

  /** A pass over knowledge that is true of `t` only concludes what is true
      of `t`. */
  lemma PassSound(st: State, t: set<Cell>)
    requires st.SoundFor(t)
    ensures st.Pass().0.SoundFor(t)
  {
    NewFactsSound(st, t);
    MarkedHold(st.knowledge, t, st.NewSafes(), st.NewMines());
    KeptHold(st.Marked(), t);
  }

  // ---------------------------------------------------------------------
  // The inference loop

  /** When the loop settles, the knowledge is at a fixed point: no sentence
      is empty, and every safe or mine a sentence proves is recorded. */
  lemma RunSettled(st: State, fuel: nat)
    ensures Run(st, fuel).1 ==> Run(st, fuel).0.FixedPoint()
  {
    forall s: State | !s.Pass().1 ensures s.Pass().0.FixedPoint() {
      PassSettled(s);
      PassQuiet(s);
    }
    LoopSettles(PassStep, (s: State) => s.FixedPoint(), st, fuel);
  }

  /** After at least one pass, no sentence is empty. */
  lemma RunNoEmpty(st: State, fuel: nat)
    requires fuel > 0
    ensures forall k :: 0 <= k < |Run(st, fuel).0.knowledge| ==> Run(st, fuel).0.knowledge[k].cells != {}
  {
    forall s: State ensures forall k :: 0 <= k < |s.Pass().0.knowledge| ==> s.Pass().0.knowledge[k].cells != {} {
      PassNoEmpty(s);
    }
    LoopEstablishes(PassStep, (s: State) => forall k :: 0 <= k < |s.knowledge| ==> s.knowledge[k].cells != {}, st, fuel);
  }

  /** The loop never forgets a fact and never touches the moves made. */
  lemma RunMonotone(st: State, fuel: nat)
    ensures Run(st, fuel).0.movesMade == st.movesMade
    ensures st.mines <= Run(st, fuel).0.mines && st.safes <= Run(st, fuel).0.safes
  {
    var inv := (s: State) => s.movesMade == st.movesMade && st.mines <= s.mines && st.safes <= s.safes;
    forall s: State | inv(s) ensures inv(s.Pass().0) {
      PassMonotone(s);
    }
    LoopKeeps(PassStep, inv, st, fuel);
  }

  /** The loop keeps every sentence free of known cells. */
  lemma RunClean(st: State, fuel: nat)
    requires st.Clean()
    ensures Run(st, fuel).0.Clean()
  {
    forall s: State | s.Clean() ensures s.Pass().0.Clean() {
      PassClean(s);
    }
    LoopKeeps(PassStep, (s: State) => s.Clean(), st, fuel);
  }

  /** The loop keeps knowledge that is true of `t` true of `t`. */
  lemma RunSound(st: State, t: set<Cell>, fuel: nat)
    requires st.SoundFor(t)
    ensures Run(st, fuel).0.SoundFor(t)
  {
    forall s: State | s.SoundFor(t) ensures s.Pass().0.SoundFor(t) {
      PassSound(s, t);
    }
    LoopKeeps(PassStep, (s: State) => s.SoundFor(t), st, fuel);
  }

  // ---------------------------------------------------------------------
  // add_knowledge as a whole

  /** After `add_knowledge(cell, count)` the cell is a move made and known
      safe, no earlier fact is lost, and the state keeps every sentence free of
      known cells. */
  lemma AddKnowledgeFacts(st: State, height: int, width: int, cell: Cell, count: int, fuel: nat)
    ensures var r := AddKnowledge(st, height, width, cell, count, fuel).0;
      && r.movesMade == st.movesMade + {cell}
      && cell in r.safes
      && st.mines <= r.mines && st.safes <= r.safes
    ensures st.Clean() ==> AddKnowledge(st, height, width, cell, count, fuel).0.Clean()
    ensures AddKnowledge(st, height, width, cell, count, fuel).1 ==>
      AddKnowledge(st, height, width, cell, count, fuel).0.FixedPoint()
  {
    var obs := st.Observe(height, width, cell, count);
    RunMonotone(obs, fuel);
    RunSettled(obs, fuel);
    if st.Clean() {
      ObserveClean(st, height, width, cell, count);
      RunClean(obs, fuel);
    }
  }

  /** Fed the true number of mines around a safe cell, `add_knowledge` keeps
      knowledge that is true of the board true; in particular no cell is then
      both a known mine and a known safe. */
  lemma AddKnowledgeSound(st: State, t: set<Cell>, height: int, width: int, cell: Cell, count: int, fuel: nat)
    requires st.SoundFor(t) && cell !in t
    requires count == |MarkedAround(height, width, t, cell)|
    ensures AddKnowledge(st, height, width, cell, count, fuel).0.SoundFor(t)
    ensures AddKnowledge(st, height, width, cell, count, fuel).0.mines
         !! AddKnowledge(st, height, width, cell, count, fuel).0.safes
  {
    ObserveSound(st, t, height, width, cell, count);
    RunSound(st.Observe(height, width, cell, count), t, fuel);
  }

  // ---------------------------------------------------------------------
  // What the inference records

  /** A pass records every safe cell and every mine that a sentence of the
      knowledge proves on its own. */
  lemma PassRecords(st: State)
    ensures forall k :: 0 <= k < |st.knowledge| ==>
      st.knowledge[k].KnownSafes() <= st.Pass().0.safes && st.knowledge[k].KnownMines() <= st.Pass().0.mines
  {
    KnownOfSpec(st.knowledge);
    assert st.Pass().0.safes == st.safes + st.NewSafes();
    assert st.Pass().0.mines == st.mines + st.NewMines();
  }

  /** The sentence an observation builds is in the knowledge afterwards when
      it has cells. */
  lemma InObserved(st: State, height: int, width: int, cell: Cell, count: int)
    ensures var s := NewSentence(height, width, st.mines, st.safes + {cell}, cell, count);
      s.cells != {} ==> s in st.Observe(height, width, cell, count).knowledge
  {
    var r := st.Observe(height, width, cell, count);
    var marked := MarkSafeAll(st.knowledge, cell);
    var s := NewSentence(height, width, st.mines, st.safes + {cell}, cell, count);
    ObserveSpec(st, height, width, cell, count);
    if s.cells != {} && s in marked {
      var k :| 0 <= k < |marked| && marked[k] == s;
      assert r.knowledge[k] == s;
    }
  }

  /** What the first pass records survives the remaining passes. */
  lemma RunKeepsFacts(st: State, fuel: nat)
    requires fuel > 0
    ensures st.Pass().0.mines <= Run(st, fuel).0.mines && st.Pass().0.safes <= Run(st, fuel).0.safes
  {
    forall s: State ensures s.mines <= PassStep(s).0.mines && s.safes <= PassStep(s).0.safes {
      PassMonotone(s);
    }
    LoopKeepsFirst(PassStep, st, fuel);
  }

  /** Once `add_knowledge` has made one pass, whatever the observed sentence
      proves on its own is recorded, even though the sentence itself may have
      been pruned since. */
  lemma ObservedResolved(st: State, height: int, width: int, cell: Cell, count: int, fuel: nat)
    requires fuel > 0
    ensures var s := NewSentence(height, width, st.mines, st.safes + {cell}, cell, count);
      var r := AddKnowledge(st, height, width, cell, count, fuel).0;
      s.KnownSafes() <= r.safes && s.KnownMines() <= r.mines
  {
    var s := NewSentence(height, width, st.mines, st.safes + {cell}, cell, count);
    var obs := st.Observe(height, width, cell, count);
    RunKeepsFacts(obs, fuel);
    if s.cells != {} {
      InObserved(st, height, width, cell, count);
      var k :| 0 <= k < |obs.knowledge| && obs.knowledge[k] == s;
      PassRecords(obs);
      assert s.KnownSafes() <= obs.Pass().0.safes && s.KnownMines() <= obs.Pass().0.mines;
    }
  }

  /** A count equal to the known mines around the cell resolves the whole
      neighbourhood: every in-grid neighbour ends up a known mine or known safe. */
  lemma ZeroLeftResolves(st: State, height: int, width: int, cell: Cell, fuel: nat)
    requires fuel > 0
    ensures var r := AddKnowledge(st, height, width, cell, |MarkedAround(height, width, st.mines, cell)|, fuel).0;
      forall p {:trigger Adjacent(cell, p)} :: Adjacent(cell, p) && InGrid(height, width, p) ==> p in r.mines || p in r.safes
  {
    var count := |MarkedAround(height, width, st.mines, cell)|;
    var r := AddKnowledge(st, height, width, cell, count, fuel).0;
    var s := NewSentence(height, width, st.mines, st.safes + {cell}, cell, count);
    NewSentenceSpec(height, width, st.mines, st.safes + {cell}, cell, count);
    assert s.count == 0;
    ObservedResolved(st, height, width, cell, count, fuel);
    AddKnowledgeFacts(st, height, width, cell, count, fuel);
    forall p | Adjacent(cell, p) && InGrid(height, width, p) ensures p in r.mines || p in r.safes {
      if p !in st.mines && p !in st.safes {
        assert p in s.cells;
      }
    }
  }

  /** With nothing known yet, observing no mines around a cell makes every
      in-grid neighbour of it known safe. */
  lemma FirstZeroSafe(height: int, width: int, cell: Cell, fuel: nat)
    requires fuel > 0
    ensures forall p {:trigger Adjacent(cell, p)} :: Adjacent(cell, p) && InGrid(height, width, p) ==>
      p in AddKnowledge(State({}, {}, {}, []), height, width, cell, 0, fuel).0.safes
  {
    var st := State({}, {}, {}, []);
    assert MarkedAround(height, width, {}, cell) == {};
    ZeroLeftResolves(st, height, width, cell, fuel);
    AddKnowledgeSound(st, {}, height, width, cell, 0, fuel);
  }

  /** On an empty 8 by 8 board, observing no mines around (1, 1) makes all
      eight of its neighbours known safe. */
  lemma CentreZeroExample(fuel: nat)
    requires fuel > 0
    ensures forall p {:trigger Adjacent((1, 1), p)} :: Adjacent((1, 1), p) ==>
      p in AddKnowledge(State({}, {}, {}, []), 8, 8, (1, 1), 0, fuel).0.safes
  {
    FirstZeroSafe(8, 8, (1, 1), fuel);
    forall p | Adjacent((1, 1), p) ensures InGrid(8, 8, p) {
    }
  }

  /** On an empty board of at least 2 by 2 cells (3 by 3, say), observing no
      mines around the corner (0, 0) makes (0, 1), (1, 0) and (1, 1) known safe. */
  lemma CornerZeroExample(height: int, width: int, fuel: nat)
    requires height >= 2 && width >= 2 && fuel > 0
    ensures var r := AddKnowledge(State({}, {}, {}, []), height, width, (0, 0), 0, fuel).0;
      (0, 1) in r.safes && (1, 0) in r.safes && (1, 1) in r.safes
  {
    FirstZeroSafe(height, width, (0, 0), fuel);
    assert Adjacent((0, 0), (0, 1)) && Adjacent((0, 0), (1, 0)) && Adjacent((0, 0), (1, 1));
  }
}
