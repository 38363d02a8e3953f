# Adaptive note quiz: value model and round state

This project models the core of the "zgaduj zgadula" note quiz
(`zad5/zgaduj_zgadula`). The core has two independent components.

- **RlModel** (`rlmodel.py`, module `Rl`, file `rlmodel.dfy`). For each note of
  the configured clefs it keeps a value estimate. It also keeps an *active
  range* of staff distances, which starts at (-2, 2) and widens by 2 on each
  side. The *active list* holds the notes inside the range and is recomputed
  from the full list on every change of the range. A question is chosen in one
  of two ways: greedily (an active note of **maximal** value) or by
  exploration (any active note). Three distractors of the target's clef are
  then drawn and the four names are shuffled. An answer moves the note's value
  toward -1 (correct) or +1 (wrong) by the moving-average rule
  `v + 0.1 * (reward - v)`. Notes are Dafny objects of class `Note`. Their
  `val` field is updated in place. The active list holds the same objects as
  the full list, so an update is seen through both, as in the source.
- **GameModel** (`game_model.py`, module `Game`, file `game_model.dfy`). It is
  the round and score state. It holds the score and an append-only score
  history, the chosen clefs and pick method, and the current round: the clef,
  four candidate names, the target and the last choice. It also holds a list
  of observers. Each score assignment appends to the history and calls every
  observer, in insertion order. `notified` is a ghost log of those calls.

`common.dfy` (module `Common`) holds the two clef names, `Option` (Python's
`None`), duplicate-free and ordered-subsequence predicates, and
`list.remove`/`list.index` as functions. `catalog.dfy` (module `Catalog`)
states facts that tie the game's note lists to the value model's distance
tables, and shows that a value model built from those lists can always ask a
question.

Randomness is not modelled as probability. `choice`, `sample` and `shuffle` are
nondeterministic choices (`:|`), and each postcondition covers every possible
outcome. The comparison `epsilon < random()` in `select_notes` is the boolean
parameter `exploit` of `SelectNotes`.

Some behaviour of the code that is easy to get wrong:
- every note starts with the value 7 (`rlmodel.py:43`), far above both rewards;
- the greedy branch picks an active note of maximal value (`rlmodel.py:55-58`);
- the score history starts empty and records each new score but not the
  initial 0, so a wrong answer and then a right one give the history [-1, 0]
  (`Game.ScenarioWrongThenRight`);
- GameModel never calls the value model, so a round samples its four names
  from the clef's full note list (`game_model.py:79-91`);
- `check_answer(None)` stores the absent choice and scores it as wrong;
- `update_val` with a name that no note has raises ValueError from
  `list.index` (`rlmodel.py:78-85`).

The bass-clef table stores "C_grand" at +10, while its neighbours run from -9
upward (`Catalog.FClefListAscends`). The range is always symmetric, (-2-2k, 2+2k),
so this does not change when the note becomes active.

Five names ("a", "h", "c1", "d1", "e1") occur in both clefs
(`Catalog.SharedNames`). `UpdateVal` finds a note by name alone and updates the
first note with that name, whatever its clef. `SelectNotes` promises
duplicate-free candidates only when no clef repeats a name
(`ClefNamesUnique`). That holds for every dictionary built from the game's note
lists (`Catalog.CatalogUnique`), but not for every dictionary a caller could
pass: one that repeats a name can make `sample` return it twice.

The app imports only GameModel and never builds an RlModel. The options screen offers three
clef choices: treble, bass, or both (`ZgadujZgadulaApp.py:44`). For each of
them, a value model built from the game's note lists can always ask a four-name
question, however often its range was widened (`Catalog.SelectionsAlwaysAsk`).
The reason is that each clef has four differently named notes at distances -2
to 1. For other dictionaries `select_notes` can raise. Widening can make a
note active that has no other active note of its clef
(`Catalog.WideningCanStrandANote`).
Then `sample` raises for a question about that note, and `SelectNotes` returns
None.

## Model

| member | source | states |
|---|---|---|
| `Rl.GetDistFromMiddle` | zad5/zgaduj_zgadula/rlmodel.py:15-16 | for "g_clef" the result is the treble-table entry, for every other clef the bass-table entry, and None exactly when the name is not in that table |
| `Rl.FlattenAt` | zad5/zgaduj_zgadula/rlmodel.py:27-31 | the flattened dictionary has one entry per listed name; name k of entry c sits at position Offset(c) + k, so the notes come clef by clef in input order |
| `Rl.FlattenOrigin` | zad5/zgaduj_zgadula/rlmodel.py:27-31 | conversely, every pair of the flattened dictionary is a clef together with one of the names listed for it |
| `Rl.FlattenDistinct` | zad5/zgaduj_zgadula/rlmodel.py:27-31 | when the clefs differ and no name list repeats a name, all flattened pairs are different |
| `Rl.FlattenLength` | zad5/zgaduj_zgadula/rlmodel.py:31 | the flattened dictionary has exactly as many pairs as names are listed |
| `Rl.OffsetOfPrefix` | zad5/zgaduj_zgadula/rlmodel.py:31 | positions of earlier clefs do not depend on later entries of the dictionary |
| `Rl.PrepareNotes` | zad5/zgaduj_zgadula/rlmodel.py:27-31 | one fresh, distinct Note per (clef, name) pair in input order, each with value 7 and the distance the lookup gives |
| `Rl.Note.constructor` | zad5/zgaduj_zgadula/rlmodel.py:19-24 | a note holds the given name, value, clef and distance |
| `Rl.ComputeNewVal` | zad5/zgaduj_zgadula/rlmodel.py:34-37 | the new value's distance to the reward (-1 if correct, +1 if wrong) is the old distance times 1 - 0.1 |
| `Rl.NewValBetween` | zad5/zgaduj_zgadula/rlmodel.py:34-37 | the new value lies strictly between the old value and the reward, or equals both when they coincide |
| `Rl.RepeatedUpdates` | zad5/zgaduj_zgadula/rlmodel.py:34-37 | after k updates with the same outcome the value is reward + 0.9^k times the initial gap |
| `Rl.ChooseActiveNotes` | zad5/zgaduj_zgadula/rlmodel.py:50-53 | the active list contains exactly the notes whose distance lies in [min, max]; it is an ordered subsequence of the full list and has no duplicates when the full list has none |
| `Rl.ChooseActiveWidens` | zad5/zgaduj_zgadula/rlmodel.py:87-90 | for a wider range the old active list stays an ordered subsequence of the new one |
| `Rl.RlModel.constructor` | zad5/zgaduj_zgadula/rlmodel.py:45-48 | the notes are the prepared notes of the dictionary, the range is (-2, 2), the active list is derived from it, and the invariant holds |
| `Rl.MaxVal` | zad5/zgaduj_zgadula/rlmodel.py:56 | the result bounds every value in the list and is the value of one of its notes |
| `Rl.NotesWithVal` | zad5/zgaduj_zgadula/rlmodel.py:57 | exactly the notes of the list that carry the given value |
| `Rl.RlModel.GetMaxNote` | zad5/zgaduj_zgadula/rlmodel.py:55-58 | the chosen note is active and no active note has a larger value; any of the tied notes may be chosen |
| `Rl.SamplePositions` | zad5/zgaduj_zgadula/rlmodel.py:64 | three distinct positions of the candidate list, any of them |
| `Rl.Shuffle` | zad5/zgaduj_zgadula/rlmodel.py:67 | the result is a reordering of the names: same multiset |
| `Rl.PossibleNotes` | zad5/zgaduj_zgadula/rlmodel.py:61-63 | exactly the active notes of the clef whose name differs from the target's |
| `Rl.PossibleWidens` | zad5/zgaduj_zgadula/rlmodel.py:61-63 | filtering an ordered subsequence of the active list gives an ordered subsequence of the filtered list |
| `Rl.EnoughFromFour` | zad5/zgaduj_zgadula/rlmodel.py:61-64 | four active notes of one clef with different names leave at least three candidates for any target name |
| `Rl.NoCandidates` | zad5/zgaduj_zgadula/rlmodel.py:61-64 | with no active note of the clef under another name, the candidate list is empty |
| `Rl.RlModel.GetRandomNoteNames` | zad5/zgaduj_zgadula/rlmodel.py:60-68 | None exactly when there are fewer than three candidates (where `sample` raises); otherwise the names are a permutation of three candidates at distinct positions plus the target |
| `Rl.DrawShape` | zad5/zgaduj_zgadula/rlmodel.py:60-68 | such a draw has four names, including the target, and every other name is a candidate's name |
| `Rl.DrawDistinct` | zad5/zgaduj_zgadula/rlmodel.py:60-68 | a draw from distinct candidates of one clef with distinct names gives four distinct names |
| `Rl.RlModel.SelectNotes` | zad5/zgaduj_zgadula/rlmodel.py:70-76 | None for an empty active list; a question when every active note has three candidates; a None otherwise only because the chosen target (maximal when exploiting) has fewer than three. A question's target is an active note of its clef, maximal when exploiting. Its four names include the target, the others name active notes of that clef, and they are distinct when no clef repeats a name |
| `Rl.RlModel.FindNoteByName` | zad5/zgaduj_zgadula/rlmodel.py:78-81 | the position of the first note with the name, which is `list.index` of the name list; None exactly when no note has it |
| `Rl.RlModel.UpdateVal` | zad5/zgaduj_zgadula/rlmodel.py:83-85 | only the first note called the name gets the moving-average value; every other note, the range and the active list stay the same; an absent name changes nothing and reports it |
| `Rl.RlModel.SetVal` | zad5/zgaduj_zgadula/rlmodel.py:85 | one note gets the new value; every other note, the note list, the range and the active list keep their state, and the invariant holds |
| `Rl.RlModel.AddActiveNotes` | zad5/zgaduj_zgadula/rlmodel.py:87-90 | the range goes from (a, b) to (a-2, b+2); the active list is recomputed, keeps the old active notes in order, no candidate list gets shorter, and no value changes |
| `Common.IndexOf` | zad5/zgaduj_zgadula/rlmodel.py:79-80 | the position of the first occurrence: the element is there and does not occur earlier |
| `Common.RemoveFirst` | zad5/zgaduj_zgadula/game_model.py:113 | the first occurrence is removed and the rest keep their order; the multiset loses exactly one copy; a list without the element is unchanged |
| `Game.GameModel.constructor` | zad5/zgaduj_zgadula/game_model.py:12-24 | score 0, empty history, target "", no answers, no last choice, clef "g_clef", clefs ["g_clef", "f_clef"], method "random", no observers |
| `Game.GameModel.NotifyObservers` | zad5/zgaduj_zgadula/game_model.py:115-117 | every observer is called once, in insertion order |
| `Game.GameModel.AddObserver` | zad5/zgaduj_zgadula/game_model.py:109-110 | the observer is appended |
| `Game.GameModel.RemoveObserver` | zad5/zgaduj_zgadula/game_model.py:112-113 | the first occurrence is removed; an absent observer changes nothing and reports it |
| `Game.GameModel.SetScore` | zad5/zgaduj_zgadula/game_model.py:54-58 | the score becomes the value, the history grows by exactly that value, every observer is called, nothing else changes |
| `Game.GameModel.SetLastChosen` | zad5/zgaduj_zgadula/game_model.py:64-67 | the last choice is stored and every observer is called |
| `Game.GameModel.SetCorrectAnswer` | zad5/zgaduj_zgadula/game_model.py:60-62 | the target is stored, with no notification |
| `Game.GameModel.SetGameConfig` | zad5/zgaduj_zgadula/game_model.py:69-71 | the clefs are stored as given; the method is "rl" exactly when RL is picked, else "random"; score, history and round are untouched |
| `Game.GameModel.IncrementScore` | zad5/zgaduj_zgadula/game_model.py:73-74 | the score rises by exactly 1, and that is appended to the history |
| `Game.GameModel.DecrementScore` | zad5/zgaduj_zgadula/game_model.py:76-77 | the score falls by exactly 1, and that is appended to the history |
| `Game.UnitStepsExtend` | zad5/zgaduj_zgadula/game_model.py:73-77 | appending a score one away from the last (or from 0) keeps every history entry one away from its predecessor |
| `Game.UnitStepsBound` | zad5/zgaduj_zgadula/game_model.py:73-77 | in such a history the score after n answers lies in [-n, n] and has the parity of n |
| `Game.GameModel.GetRandomNotes` | zad5/zgaduj_zgadula/game_model.py:79-84 | four distinct names from the current clef's full list; None for any other clef |
| `Game.GameModel.InitializeRound` | zad5/zgaduj_zgadula/game_model.py:86-91 | the clef is one of the chosen clefs, the answers are four distinct names of its list including the target, no choice is set, score and history are unchanged, and observers are called once |
| `Game.GameModel.DrawRound` | zad5/zgaduj_zgadula/game_model.py:86-90 | the clef is one of the chosen clefs, the answers are four distinct names of its list, the target is one of them and no choice is set |
| `Game.GameModel.CheckAnswer` | zad5/zgaduj_zgadula/game_model.py:93-101 | the choice is stored; the score goes up by 1 exactly when it equals the target (None never does), else down by 1; the history grows by the new score; the round is unchanged; observers are called twice |
| `Game.GameModel.IsLastAnswerCorrect` | zad5/zgaduj_zgadula/game_model.py:100-101 | false while no choice is stored; otherwise true exactly when the choice is the target |
| `Game.GameModel.DumpGameState` | zad5/zgaduj_zgadula/game_model.py:103-107 | the record holds the game's own history, method and clefs; the history ends with the current score (it is empty only while the score is the initial 0); the method is "random" or "rl" |
| `Catalog.NoteListsMatchTables` | zad5/zgaduj_zgadula/game_model.py:5-10 | each clef's note list of the round state names exactly the keys of that clef's distance table |
| `Catalog.NoteListsDistinct` | zad5/zgaduj_zgadula/game_model.py:5-10 | neither note list repeats a name, so sampling four gives four different names |
| `Catalog.GClefListAscends` | zad5/zgaduj_zgadula/rlmodel.py:5-8 | along the treble list the distance is position - 6 |
| `Catalog.FClefListAscends` | zad5/zgaduj_zgadula/rlmodel.py:9-12 | along the bass list the distance is position - 10, except "C_grand" at +10 |
| `Catalog.InitialRangeTrebleNames` | zad5/zgaduj_zgadula/rlmodel.py:47 | at the initial range (-2, 2) exactly "e1", "f1", "g1", "a1", "h1" of the treble table are in range |
| `Catalog.InitialRangeBassNames` | zad5/zgaduj_zgadula/rlmodel.py:47 | at the initial range (-2, 2) exactly "d", "e", "f", "g", "a" of the bass table are in range |
| `Catalog.SharedNames` | zad5/zgaduj_zgadula/rlmodel.py:5-12 | exactly "a", "h", "c1", "d1", "e1" appear in both tables |
| `Catalog.WindowNameAt` | zad5/zgaduj_zgadula/rlmodel.py:5-12 | positions 4-7 of the treble list and 8-11 of the bass list hold names at distances -2, -1, 0 and 1 |
| `Catalog.CatalogNamesKnown` | zad5/zgaduj_zgadula/game_model.py:5-10 | every name of a dictionary built from the game's note lists has a distance in its clef's table |
| `Catalog.CatalogModelReady` | zad5/zgaduj_zgadula/rlmodel.py:60-76 | a value model built from the game's note lists has active notes, and each one has at least three candidates, at every widening |
| `Catalog.CatalogFlatDistinct` | zad5/zgaduj_zgadula/game_model.py:5-10 | the dictionary built from the game's note lists for a clef choice flattens to pairs that are all different |
| `Catalog.CatalogUnique` | zad5/zgaduj_zgadula/rlmodel.py:27-31 | in a model built from that dictionary, two different notes of one clef never share a name |
| `Catalog.SelectionsAlwaysAsk` | zad5/zgaduj_zgadula/ZgadujZgadulaApp.py:44 | for each clef choice of the options screen, after any number of widenings, the selection returns a question of four different names that includes the target |
| `Catalog.StrandBefore` | zad5/zgaduj_zgadula/rlmodel.py:47-48 | for four treble notes near the middle and the bass "c1", every initially active note has at least three candidates |
| `Catalog.StrandAfter` | zad5/zgaduj_zgadula/rlmodel.py:87-90 | after one widening "c1" is active and has no candidate |

## Left out

- `ZgadujZgadulaApp.py`: the Kivy screens, buttons and labels, the results file
  and the date formatting are user interface and disk I/O. Its call of
  `should_add_active_notes` has no counterpart in GameModel.
- The zad7 ZooKeeper monitor and executor are network callbacks, processes and
  threads. They are not part of this model.
- `dump_game_state_to_json`: only the record's three fields are modelled
  (`DumpGameState`), not the JSON text.
- Probabilities: Epsilon is kept as a constant, but neither the uniform
  distributions nor the 0.15 exploration rate are modelled. Only the set of
  possible outcomes is.
- Floating point: values are exact reals, so Python's float rounding is not
  modelled.
- Observer callbacks: only the order and the number of calls are recorded.
  What an observer does, including re-entering the model, is not modelled.
- Rl.RlModel.constructor: a dictionary with a name missing from its clef's
  table is excluded by a precondition. The source builds a note with distance
  None and then raises TypeError in the range comparison.
- Rl.RlModel.GetMaxNote: an empty active list is excluded by a precondition.
  The source's `max` raises ValueError there. Its only caller, SelectNotes,
  returns None for an empty list before calling it.
- Rl.RlModel.SelectNotes: where the source raises, the model returns None. That
  is `max` or `choice` of an empty active list (ValueError, IndexError), or
  `sample` with fewer than three candidates (ValueError). The exception type
  is not modelled.
- Rl.RlModel.GetRandomNoteNames: the ValueError that `sample` raises for fewer
  than three candidates is modelled as None.
- Rl.SamplePositions: a list shorter than three is excluded by a precondition.
  Its only caller, GetRandomNoteNames, returns None first.
- Game.GameModel.DrawRound: an empty clef list or an unknown clef is excluded
  by a precondition, as for InitializeRound, which calls it. The source raises
  there.
- Game.GameModel.InitializeRound: an empty clef list or an unknown clef is
  excluded by a precondition. The source raises part-way and leaves the clef
  and the answers half-updated; that partial state is not modelled.
- Game.GameModel.RemoveObserver: removing an absent observer returns false and
  changes nothing. The source's `list.remove` raises ValueError there.
- Rl.RlModel.UpdateVal: an absent name returns false and changes nothing. The
  source's `list.index` raises ValueError there.
- Python dictionaries are modelled as sequences of (clef, names) pairs in
  iteration order; the model does not forbid a repeated clef key, which a real
  dictionary cannot hold.
- `sample(list, 4)` is modelled as any four distinct names of the list. That is
  exactly its set of outcomes because neither list repeats a name
  (`Catalog.NoteListsDistinct`).
