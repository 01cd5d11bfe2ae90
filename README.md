# Minesweeper AI knowledge base, in Dafny

This project models the deduction engine of the Minesweeper player in
`minesweeper.py`, and then proves properties of that model.

- **Sentence.** A sentence is a constraint: "exactly `count` of `cells` are mines".
- **Player.** The player has these fields:
  - the cells it has clicked (`moves_made`);
  - the cells it knows to be mines;
  - the cells it knows to be safe;
  - a list of sentences (`knowledge`).
- **Observation.** Each time the player learns how many mines surround a clicked cell, `add_knowledge` does the following:
  1. It records the move and marks the clicked cell safe.
  2. It builds a sentence over the cell's unknown in-grid neighbours. The count is lowered by one for each neighbour already known to be a mine.
  3. It runs passes of inference until a pass changes nothing. Each pass has four steps, in this order:
     - **direct resolution:** a sentence whose count is zero makes its cells safe; a sentence whose count equals its size makes its cells mines;
     - **marking:** the new safe cells are marked, then the new mines;
     - **pruning:** sentences left without cells are removed;
     - **the subset rule:** if one sentence's cells are a strict subset of another's, the difference of cells and of counts is a new sentence.
- **Moves.** The player picks a known safe cell it has not clicked. Failing that, it picks at random among the cells that are neither clicked nor known mines.
- **Board.** Two helpers of the board are also modelled: counting the mines around a cell, and the win test.

The project has five modules:

| module | file | contents |
|---|---|---|
| `Grid` | `grid.dfy` | cells, the neighbourhood relation, and the set of marked neighbours of a cell |
| `Sentences` | `sentence.dfy` | the sentence as a value: its two queries, its two updates, and its truth for a placement of mines |
| `Inference` | `inference.dfy` | the player's state as a value, with every step of `add_knowledge` written as a function, plus the lemmas about those functions |
| `Player` | `player.dfy` | the player as a class whose methods update its fields in place |
| `Board` | `board.dfy` | the two board helpers |

Each mutating method in `Player` is proved to leave exactly the state that the matching `Inference` function describes, through the clause `View() == ...`, where `View()` is the fields taken as a value of type `State`. So every lemma proved in `Inference` also holds of the class. The methods that only compute something (`MakeSafeMove`, `RandomMoveCandidates`, `MakeRandomMove`, `NeighbourSentence`, `CollectFacts`, `EmptySentences`, `SubsetInferences`) state their results directly, or through the function that describes them.

Some readings of the source that the model relies on:

- **Sentence equality is by value.** `Sentence.__eq__` compares cells and count, so `==`, `in` and `list.remove` on sentences all work by value.
  - The test `s1 == s2` in the subset loop is therefore value equality too (minesweeper.py:304). Its comment says "same object in memory", but the code compares values. The model follows the code.
  - `knowledge.remove(x)` removes the first value-equal entry. The model proves that removing all the empty sentences this way leaves exactly the non-empty sentences, in their original order.
- **The inference loop has no termination argument.** The code gives no bound on the number of passes (minesweeper.py:250-251).
  - The model takes an explicit bound (`fuel`) on the number of passes.
  - It reports whether the loop settled within that bound.
  - When it did settle, it proves the knowledge is at a fixed point.
- **No count invariant is enforced.** Nothing in the code checks `0 <= count <= |cells|`, so contradictory observations can produce negative counts (minesweeper.py:136, 312).
  - The model does not assume the invariant.
  - It proves it only for sentences that are true of some placement of mines (`Sentences.HoldsBounds`).
  - It proves that true observations keep all knowledge true (`Inference.AddKnowledgeSound`).
- **Duplicates are not removed.** The code checks for duplicates only when it adds a sentence (minesweeper.py:244, 318), so marking can leave two value-equal sentences in `knowledge`, and they stay there. The model follows the code.

## Model

| member | source | states |
|---|---|---|
| Sentences.Sentence.KnownMines | minesweeper.py:104-110 | the result is `cells` when the count equals the number of cells, and empty otherwise; it is always within `cells` |
| Sentences.Sentence.KnownSafes | minesweeper.py:113-124 | the result is `cells` when the count is zero, and empty otherwise; it is always within `cells` |
| Sentences.Sentence.MarkMine | minesweeper.py:126-136 | if `c` is a cell of the sentence, it is removed and the count drops by exactly one; otherwise the sentence is unchanged; `c` is never left in the cells |
| Sentences.Sentence.MarkSafe | minesweeper.py:137-145 | `c` is removed if present, the count never changes, and the sentence is unchanged when `c` is absent |
| Sentences.Sentence.MarkMines | minesweeper.py:279-281 | marking a set of mines removes those cells and lowers the count by the number of them that were in the sentence |
| Sentences.Sentence.MarkSafes | minesweeper.py:275-277 | marking a set of safe cells removes those cells and keeps the count |
| Sentences.MarkMineIdempotent | minesweeper.py:126-145 | marking the same mine twice, or the same safe cell twice, gives the same sentence as marking it once |
| Sentences.MarkAbsentNoOp | minesweeper.py:126-145 | marking a cell that is not in the sentence, safe then mine or mine then safe, leaves the sentence as it was |
| Sentences.MarkMinesStep | minesweeper.py:279-281 | marking one more mine on top of a set of marked mines equals marking the union, whether or not the mine was already in the set; so marking the mines of a set one by one, in any order, equals marking the whole set at once |
| Sentences.MarkSafesStep | minesweeper.py:275-277 | marking the safe cells of a set one by one, in any order, equals marking the whole set at once |
| Sentences.HoldsBounds | minesweeper.py:87-96 | a sentence that is true of some placement of mines has `0 <= count <= |cells|` |
| Sentences.KnownSound | minesweeper.py:104-124 | in a true sentence, the known mines are mines and the known safes are not mines |
| Sentences.MarkSound | minesweeper.py:126-145 | marking a true fact, a mine that is a mine or a safe cell that is not a mine, keeps a true sentence true |
| Sentences.MarkSetsSound | minesweeper.py:275-281 | marking a set of true safe cells, then a set of true mines, keeps a true sentence true |
| Sentences.SubsetSound | minesweeper.py:307-316 | when the cells of one true sentence lie within those of another, the difference of cells and of counts is again true |
| Grid.Neighbours | minesweeper.py:66-71 | the cells around a cell are exactly the cells within one row and one column of it, excluding the cell itself; there are eight of them |
| Grid.MarkedAround | minesweeper.py:63-78 | the marked neighbours are exactly the in-grid neighbours of the cell that are marked; there are at most eight |
| Grid.AroundExactly | minesweeper.py:66-76 | a complete row-major scan of the three-by-three square that collects the marked in-grid neighbours has collected exactly `MarkedAround` |
| Board.Minesweeper.NearbyMines | minesweeper.py:55-78 | the result is the number of mines among the in-grid neighbours, excluding the cell itself, and lies between 0 and 8 |
| Board.Minesweeper.Won | minesweeper.py:80-84 | the game is won when the flagged cells are the mine cells; `WonExactlyMines` relates this to the mine squares of the grid |
| Board.WonExactlyMines | minesweeper.py:80-84 | on a well-formed board, the game is won exactly when the flagged cells are exactly the mine squares of the grid |
| Inference.KnownSafesOf | minesweeper.py:260-268 | the union of the known safe cells of the sentences; `KnownOfSpec` states its meaning and `KnownOfStep` its growth one sentence at a time |
| Inference.KnownMinesOf | minesweeper.py:260-273 | the union of the known mines of the sentences; `KnownOfSpec` states its meaning and `KnownOfStep` its growth one sentence at a time |
| Inference.State.NewSafes | minesweeper.py:260-268 | the cells some sentence proves safe that are not yet known safe; `NewFactsSound` and `PassRecords` state its meaning |
| Inference.State.NewMines | minesweeper.py:260-273 | the cells some sentence proves to be mines that are not yet known mines; `NewFactsSound` and `PassRecords` state its meaning |
| Inference.NonEmpty | minesweeper.py:283-294 | the sentences that still have cells, in list order; `NonEmptySpec`, `NoEmpties` and `PruneDone` state its meaning |
| Inference.Empties | minesweeper.py:284-287 | the sentences without cells, in list order; `NonEmptySpec` and `EmptiesAppend` state its meaning |
| Inference.RemoveFirst | minesweeper.py:293 | `list.remove`: the list with its first value-equal copy of the sentence removed; `RemoveFirstEmpty` states its effect on the kept and pending sentences |
| Inference.KnownOfSpec | minesweeper.py:260-273 | a cell is gathered as known safe (or known mine) exactly when some sentence of the knowledge proves it so |
| Inference.NonEmptySpec | minesweeper.py:283-294 | pruning keeps exactly the sentences that have cells, and the empty ones are the rest; both parts together have the length of the list; a list with no empty sentence is unchanged |
| Inference.NoEmpties | minesweeper.py:283-294 | when no sentence is empty, pruning leaves the list as it is |
| Inference.EmptiesAppend | minesweeper.py:284-287 | scanning one more sentence adds it to the list of empty sentences exactly when it has no cells |
| Inference.RemoveFirstEmpty | minesweeper.py:290-294 | removing the first value-equal copy of an empty sentence keeps the non-empty sentences in order, shortens the list by one, and takes one copy off the pending empties |
| Inference.PruneStep | minesweeper.py:290-294 | each empty sentence left to remove is still in the list, and removing it keeps the pruning on track |
| Inference.PruneDone | minesweeper.py:290-294 | when no empty sentence is left to remove, the list is exactly the non-empty sentences of the original list, in order |
| Inference.MarkMineAll | minesweeper.py:176-177 | every sentence told that `c` is a mine, each in its own position; `MarkMineEffect` states its meaning |
| Inference.MarkSafeAll | minesweeper.py:185-186 | every sentence told that `c` is safe, each in its own position; `MarkSafeEffect` states its meaning |
| Inference.MarkMinesAll | minesweeper.py:279-281 | every sentence told a set of mines; `MarkMinesAllStep` ties it to marking one mine at a time |
| Inference.MarkSafesAll | minesweeper.py:275-277 | every sentence told a set of safe cells; `MarkSafesAllStep` ties it to marking one safe cell at a time |
| Inference.State.Marked | minesweeper.py:275-281 | the sentences after the new safe cells, then the new mines, are marked; `MarkedClear` and `MarkedHold` state what it keeps |
| Inference.MarkMinesAllStep | minesweeper.py:279-281 | telling every sentence one more mine equals telling every sentence the enlarged set |
| Inference.MarkSafesAllStep | minesweeper.py:275-277 | telling every sentence one more safe cell equals telling every sentence the enlarged set |
| Inference.Candidate | minesweeper.py:304-316 | what the subset rule derives from one ordered pair; `CandidateShape` states its meaning |
| Inference.Consider | minesweeper.py:303-320 | one pair of the subset scan; `ConsiderSpec` states its meaning |
| Inference.Row | minesweeper.py:302-320 | the inner loop of the subset scan for one first sentence; `RowSpec` states its meaning |
| Inference.DerivedUpTo | minesweeper.py:301-320 | the subset scan after its first `m` rows; `DerivedUpToSpec` states its meaning |
| Inference.Derived | minesweeper.py:297-320 | the sentences the subset rule adds in one pass; `DerivedSpec` states its meaning and `DerivedSound` its soundness |
| Inference.CandidateShape | minesweeper.py:304-316 | the subset rule yields a sentence for the ordered pair exactly when the first sentence's cells are a strict subset of the second's; that sentence is the difference of cells and counts, and it has cells |
| Inference.ConsiderSpec | minesweeper.py:303-320 | considering a pair adds its sentence exactly when the pair yields one that is not in the knowledge; the list of derived sentences stays new, non-empty and free of repeats |
| Inference.RowSpec | minesweeper.py:302-320 | after pairing `s1` with the first `n` sentences, the derived list holds exactly what it held before plus the new sentences those pairs yield |
| Inference.DerivedUpToSpec | minesweeper.py:301-320 | after the first `m` rows, the derived list holds exactly the new sentences yielded by pairs whose first member is among the first `m` sentences |
| Inference.DerivedSpec | minesweeper.py:297-320 | every derived sentence is the difference of a strict-subset pair of the knowledge, is not in the knowledge, has cells, and appears once; and every such difference is either in the knowledge or derived |
| Inference.DerivedNew | minesweeper.py:317-320 | derived sentences are new, have cells, and are not repeated |
| Inference.DerivedFrom | minesweeper.py:307-316 | each derived sentence comes from a pair of the knowledge whose first cells are a strict subset of the second's |
| Inference.DerivedComplete | minesweeper.py:301-320 | the difference of every strict-subset pair is, after the pass, in the knowledge or among the derived sentences |
| Inference.DerivedCells | minesweeper.py:311 | a derived sentence mentions only cells of one sentence of the knowledge |
| Inference.SubsetExample | minesweeper.py:307-320 | from {A, B} = 1 and {A, B, C} = 2, the subset rule derives exactly {C} = 1 |
| Inference.State.MarkMine | minesweeper.py:170-177 | `mark_mine` on the player; `MarkMineEffect`, `MarkMineTwice`, `MarkClean` and `MarkStateSound` state its meaning |
| Inference.State.MarkSafe | minesweeper.py:179-186 | `mark_safe` on the player; `MarkSafeEffect`, `MarkSafeTwice`, `MarkClean` and `MarkStateSound` state its meaning |
| Inference.MarkMineEffect | minesweeper.py:170-177 | after marking `c` a mine: `c` is a known mine; no sentence mentions it; each sentence is updated in its own position; the safe cells, the moves made and the number of sentences are unchanged |
| Inference.MarkMineTwice | minesweeper.py:170-177 | marking the same mine twice leaves the same state as marking it once |
| Inference.MarkSafeEffect | minesweeper.py:179-186 | after marking `c` safe: `c` is a known safe cell; no sentence mentions it; each sentence is updated in its own position; the mines, the moves made and the number of sentences are unchanged |
| Inference.MarkSafeTwice | minesweeper.py:179-186 | marking the same safe cell twice leaves the same state as marking it once |
| Inference.MarkClean | minesweeper.py:170-186 | marking a mine or a safe cell keeps every sentence free of known cells |
| Inference.MarkStateSound | minesweeper.py:170-186 | marking a true fact keeps knowledge that is true of a placement of mines true |
| Inference.NewSentence | minesweeper.py:212-242 | the sentence built from an observation; `NewSentenceSpec` states its meaning and `ScanDone` ties it to the nested scan |
| Inference.NewSentenceSpec | minesweeper.py:212-242 | the sentence built from an observation has as cells exactly the in-grid neighbours that are neither known mines nor known safe; its count is the observed count minus the known mines around the cell |
| Inference.ScanDone | minesweeper.py:218-242 | a finished scan of the neighbourhood that collected the unknown neighbours and the known mines yields exactly the new sentence |
| Inference.State.Observe | minesweeper.py:204-246 | the first part of `add_knowledge`, before the inference loop; `ObserveSpec`, `ObserveClean`, `ObserveSound` and `InObserved` state its meaning |
| Inference.ObserveSpec | minesweeper.py:204-246 | after an observation: the cell is a move made and known safe; the old sentences are the ones marked safe at that cell; the new sentence follows them exactly when it has cells and is not already among them |
| Inference.ObserveClean | minesweeper.py:204-246 | an observation keeps every sentence free of known cells |
| Inference.ObserveSound | minesweeper.py:204-246 | observing the true number of mines around a safe cell keeps true knowledge true |
| Inference.State.Pass | minesweeper.py:252-324 | one pass of the inference loop and its `change_made` flag; the `Pass*` lemmas below state its meaning |
| Inference.PassNoEmpty | minesweeper.py:250-324 | after a pass, no sentence is empty |
| Inference.FixedPointQuiet | minesweeper.py:258-294 | at a fixed point, direct resolution finds nothing new, and marking and pruning leave the knowledge unchanged |
| Inference.QuietFixedPoint | minesweeper.py:258-294 | if direct resolution finds nothing new and pruning removes nothing, the knowledge is at a fixed point |
| Inference.PassSettled | minesweeper.py:250-324 | a pass reports no change exactly when the knowledge is at a fixed point and the subset rule has nothing new to add |
| Inference.PassQuiet | minesweeper.py:250-324 | a pass that reports no change leaves the state as it was |
| Inference.PassMonotone | minesweeper.py:255-324 | a pass keeps the moves made unchanged and never forgets a known mine or a known safe cell |
| Inference.MarkedClear | minesweeper.py:275-281 | marking the new safe cells and mines keeps the sentences free of every known cell, old and new |
| Inference.KeptClear | minesweeper.py:283-324 | pruning and the subset rule keep the sentences free of known cells |
| Inference.PassClean | minesweeper.py:250-324 | a pass keeps every sentence free of known cells |
| Inference.NewFactsSound | minesweeper.py:258-273 | in knowledge that is true of a placement of mines, direct resolution finds only real safe cells and real mines |
| Inference.DerivedSound | minesweeper.py:297-320 | the subset rule applied to true sentences derives only true sentences |
| Inference.MarkedHold | minesweeper.py:275-281 | marking true safe cells and true mines keeps every sentence true |
| Inference.KeptHold | minesweeper.py:283-324 | pruning and the subset rule keep every sentence true |
| Inference.PassSound | minesweeper.py:250-324 | a pass over knowledge that is true of a placement of mines leaves knowledge that is true of it |
| Inference.Loop | minesweeper.py:250-251 | the `while change_made` loop over any step function, cut off after `fuel` steps; `LoopKeeps`, `LoopSettles`, `LoopEstablishes` and `LoopKeepsFirst` state what it keeps and how it ends |
| Inference.Run | minesweeper.py:250-324 | the inference loop; the `Run*` lemmas below state its meaning |
| Inference.RunSettled | minesweeper.py:250-324 | when the loop settles, the knowledge is at a fixed point: no sentence is empty, and every sentence's known safe cells and known mines are recorded |
| Inference.RunNoEmpty | minesweeper.py:250-294 | after at least one pass, no sentence is empty |
| Inference.RunMonotone | minesweeper.py:250-324 | the loop never changes the moves made and never forgets a known fact |
| Inference.RunClean | minesweeper.py:250-324 | the loop keeps every sentence free of known cells |
| Inference.RunSound | minesweeper.py:250-324 | the loop keeps true knowledge true |
| Inference.AddKnowledge | minesweeper.py:188-324 | `add_knowledge`: the observation followed by the inference loop; the `AddKnowledge*`, `ObservedResolved` and `ZeroLeftResolves` lemmas state its meaning |
| Inference.AddKnowledgeFacts | minesweeper.py:188-324 | afterwards: the clicked cell is a move made and known safe; no earlier fact is lost; knowledge free of known cells stays so; if the loop settled, the knowledge is at a fixed point |
| Inference.AddKnowledgeSound | minesweeper.py:188-324 | given the true count around a cell that is not a mine, true knowledge stays true, and no cell is then both a known mine and a known safe cell |
| Inference.PassRecords | minesweeper.py:258-281 | a pass records as known every safe cell and mine that a sentence of the knowledge proves on its own |
| Inference.InObserved | minesweeper.py:244-245 | the observed sentence is in the knowledge after the observation whenever it has cells, whether it was just appended or already present |
| Inference.RunKeepsFacts | minesweeper.py:250-324 | the facts recorded by the first pass survive the remaining passes |
| Inference.ObservedResolved | minesweeper.py:188-324 | after `add_knowledge`, every safe cell and mine that the observed sentence proves by itself is recorded, although the sentence may since have been pruned |
| Inference.ZeroLeftResolves | minesweeper.py:188-324 | a count equal to the number of known mines around the cell leaves every in-grid neighbour known: a recorded mine or a recorded safe cell |
| Inference.FirstZeroSafe | minesweeper.py:188-324 | with nothing known yet, a zero count makes every in-grid neighbour of the cell known safe |
| Inference.CentreZeroExample | minesweeper.py:188-324 | on an empty 8 by 8 board, `add_knowledge((1, 1), 0)` makes all eight neighbours of (1, 1) known safe |
| Inference.CornerZeroExample | minesweeper.py:188-324 | on an empty board of at least 2 by 2 cells, `add_knowledge((0, 0), 0)` makes (0, 1), (1, 0) and (1, 1) known safe |
| Player.GatherNew | minesweeper.py:262-273 | the collected cells grow by exactly the sentence's cells that are not yet known; the flag says whether there were any |
| Player.ConsiderPair | minesweeper.py:303-320 | one pair of the subset scan adds its difference exactly as the subset rule prescribes; the flag says whether it added anything |
| Player.MinesweeperAI.constructor | minesweeper.py:154-168 | a new player has the given size, has clicked nothing, knows nothing, and has no sentences |
| Player.MinesweeperAI.MarkMine | minesweeper.py:170-177 | the fields become exactly the state of `Inference.State.MarkMine`, which `MarkMineEffect` and `MarkMineTwice` describe |
| Player.MinesweeperAI.MarkSafe | minesweeper.py:179-186 | the fields become exactly the state of `Inference.State.MarkSafe`, which `MarkSafeEffect` and `MarkSafeTwice` describe |
| Player.MinesweeperAI.NeighbourSentence | minesweeper.py:212-242 | the nested scan returns exactly the sentence that `NewSentenceSpec` characterises |
| Player.MinesweeperAI.Observe | minesweeper.py:204-246 | the fields become exactly the state of `Inference.State.Observe`, which `ObserveSpec` describes |
| Player.MinesweeperAI.CollectFacts | minesweeper.py:254-273 | a cell is a new safe cell exactly when some sentence proves it safe and it is not yet known; the same holds for mines; the flag says whether either set is non-empty |
| Player.MinesweeperAI.MarkSafes | minesweeper.py:275-277 | marking the new safe cells one at a time, in any order, adds them to the known safe cells and marks them in every sentence |
| Player.MinesweeperAI.MarkMines | minesweeper.py:279-281 | marking the new mines one at a time, in any order, adds them to the known mines and marks them in every sentence |
| Player.MinesweeperAI.EmptySentences | minesweeper.py:283-287 | returns exactly the sentences without cells, in list order |
| Player.MinesweeperAI.PruneEmpty | minesweeper.py:283-294 | removing each empty sentence by value leaves exactly the non-empty sentences in order; the flag says whether the list got shorter |
| Player.MinesweeperAI.SubsetInferences | minesweeper.py:297-320 | the pairwise scan returns exactly the sentences of `Inference.Derived`, which `DerivedSpec` characterises; the flag says whether there are any |
| Player.MinesweeperAI.InferSubsets | minesweeper.py:297-324 | the knowledge becomes the old knowledge followed by the derived sentences |
| Player.MinesweeperAI.InferencePass | minesweeper.py:252-324 | one pass leaves exactly the state of `Inference.State.Pass` and reports its change flag |
| Player.MinesweeperAI.AddKnowledge | minesweeper.py:188-324 | leaves exactly the state of `Inference.AddKnowledge`; the clicked cell ends up a move made and known safe; known facts only grow; knowledge free of known cells stays so; a settled loop ends at a fixed point |
| Player.MinesweeperAI.MakeSafeMove | minesweeper.py:329-345 | returns a known safe cell that has not been clicked, or nothing exactly when every known safe cell has been clicked |
| Player.MinesweeperAI.RandomMoveCandidates | minesweeper.py:354-363 | the candidates are exactly the in-grid cells that are neither clicked nor known mines, listed in row-major order without repeats |
| Player.MinesweeperAI.MakeRandomMove | minesweeper.py:347-370 | returns an in-grid cell that is neither clicked nor a known mine, or nothing exactly when no such cell exists |

## Left out

- `Minesweeper.__init__` (minesweeper.py:10-34) is not modelled, because it places mines at random in a loop whose termination depends on the random numbers. The board is a given value, and `Board.Minesweeper.Valid` states what construction guarantees.
- `Minesweeper.print` (minesweeper.py:36-49) is not modelled, because it is console output.
- `Minesweeper.is_mine` (minesweeper.py:51-53) is not modelled, because the player never calls it. It is a lookup of one square.
- Player.MinesweeperAI.MakeRandomMove: `random.choice` is replaced by a parameter `choice`, and the move is the candidate at index `choice % |candidates|`. Uniformity of the draw is not modelled.
- Player.MinesweeperAI.AddKnowledge: the source's unbounded `while change_made` loop is cut off after `fuel` passes. `settled` says whether a pass made no change within that bound. Nothing is claimed about a run that needs more passes. The source gives no termination argument.
- Player.MinesweeperAI.MakeSafeMove: Python's set iteration order is not modelled. The method may return any eligible cell.
- Player.MinesweeperAI.MarkSafes and Player.MinesweeperAI.MarkMines: the order in which the cells of a set are visited is also unmodelled. The marking lemmas show that the order does not change the result.
- `Sentence.mark_mine` and `Sentence.mark_safe` change a sentence object in place. The model treats the sentence as a value and replaces the list entry with the updated value. This is the same because every sentence in `knowledge` is a fresh object that no other entry or variable shares. Aliasing of sentence objects is therefore not modelled.
- `Sentence.__str__` (minesweeper.py:101-102) is not modelled, because it only formats text.
- Soundness against the real board is not an invariant of the code. The player never sees the true mines, and nothing checks the counts it is given. Inference.AddKnowledgeSound therefore assumes the true count around a cell that is not a mine. On contradictory input, the model, like the code, can produce negative counts or a cell that is both a known mine and a known safe cell.
- Python integers are unbounded, like Dafny's `int`, so the model has no overflow to model.
