# A character-level n-gram language model

The program learns, from a corpus, which character follows each window of
`windowLength` characters and how often, and then generates text from what it
learned. Each window maps to a `List`, a hand-written singly linked list of
character-data records. A record holds a character, its count, its
probability `p`, and its cumulative probability `cp`. Training slides the
window over the corpus. Each successor is counted in its window's row: a new
character goes to the front of the row, a known one has its count
incremented. Then every row's `p` and `cp` are computed, in row order.
Generation starts from the last `windowLength` characters of an initial text.
At each step it draws a number, picks the first record whose `cp` reaches it,
appends that character and slides the window. It stops early at a window the
model never saw.

The model has six modules:

- `CharRecords` (`records.dfy`): the record as a value, plus Java's exceptions
  and null references as `Result` and `Option`.
- `CharList` (`char_list.dfy`): `List` as a class. `elems` stands for the node
  chain and `size` for the separately kept counter. `IndexOf`, `Update`,
  `UpdateCorrected` and `Remove` are proved against functions on the record
  sequence (`IndexIn`, `UpdatedRow`, `Removed`), and those functions have
  lemmas of their own. `GetSize`, `GetFirst`, `AddFirst`, `Get`, `ToArray`
  and `ListIterator` state their results directly over `elems` and `size`.
- `Probabilities` (`probabilities.dfy`): exact real arithmetic for
  `calculateProbabilities` (`FinalizeRow`) and `getRandomChar` (`Covering`,
  `Sample`). The lemmas show that `cp` strictly increases and ends at 1, that
  the `p` values sum to 1, that a draw in a record's bucket picks that
  record, and that a draw in [0, 1) never reaches the blank fallback.
- `TrainingSpec` (`training_spec.dfy`): training as functions on a table
  value. `Step` is one counted successor, `Counted` counts all of them, and
  `Trained` then finalises every row. There is also an independent
  description of the result: its keys are the windows that some character
  follows, and each count is the number of positions where that window is
  followed by that character.
- `GenerationSpec` (`generation_spec.dfy`): generation as the function `Walk`.
  A lemma shows that each appended character is drawn from the row of the
  window that precedes it. Another shows that on a finalised table the row of
  that window holds the character. A third shows that on a model trained from
  scratch the character follows that window at some position of the corpus.
  A worked example trains
  on "aab" and walks from "a".
- `LanguageModels` (`language_model.dfy`): the `LanguageModel` class, whose
  methods are proved against `Trained` and `Walk`. The ghost field `table`
  holds the rows' records as values. `Valid()` ties `table` to the lists:
  every window owns a list of its own, each list's counter equals its number
  of records, and the table is well formed.

The random generator becomes a parameter. `Generate` takes the sequence of
draws it would have obtained from `nextDouble()`, one per appended character.
The same draws therefore always give the same text, which is what the seeded
constructor promises.

## Model

| member | source | states |
|---|---|---|
| CharList.IndexIn | List.java:52-62 | the result is -1 exactly when no record holds the character; otherwise it is the position of the first record that does |
| CharList.UpdatedRowCounts | List.java:67-76 | after `update(c)` the count of `c` is one higher and every other character's count is unchanged |
| CharList.UpdatedRowDistinct | List.java:67-76 | `update` keeps a row free of duplicate characters, and the row then holds `c` |
| CharList.RemovedAbsent | List.java:81-97 | `remove(c)` on a duplicate-free row leaves no record for `c`, keeps the row duplicate-free, and shortens it by one exactly when `c` was present |
| CharList.List.constructor | List.java:15-18 | a new list has no records and a counter of 0 |
| CharList.List.GetSize | List.java:21-23 | returns the counter |
| CharList.List.GetFirst | List.java:26-28 | returns the first record; an empty list is a null dereference |
| CharList.List.AddFirst | List.java:31-35 | a fresh record (count 1) goes in front and the counter goes up by one |
| CharList.List.IndexOf | List.java:52-62 | the scanning loop returns `IndexIn` of the records |
| CharList.List.Update | List.java:67-76 | as written: the records become `UpdatedRow`, and the counter goes up by 2 when the character is new and by 0 otherwise |
| CharList.List.UpdateCorrected | List.java:67-76 | corrected: the same records, the counter goes up by 1 when the character is new, and a counter that matched the records still matches |
| CharList.List.Remove | List.java:81-97 | reports true exactly when the character is present; the records become `Removed`; the counter drops by one on success |
| CharList.List.Get | List.java:102-112 | out of bounds exactly when the index is negative or not below the counter; otherwise the record at that index, or a null dereference when the chain is shorter than the counter |
| CharList.List.ToArray | List.java:115-124 | a new array of `size` slots holding the records in order; slots past the chain stay null |
| CharList.List.ListIterator | List.java:127-139 | null for a counter of 0; otherwise the records from `index` on, or a null dereference when `index` lies past the end of the chain |
| CharList.GetRecord | List.java:52-112 | `get(indexOf(c))` on a list whose counter covers its records never dereferences null; it returns a record for `c` that is in the list, and it is out of bounds exactly when no record holds `c` |
| CharList.UpdateDriftWitness | List.java:67-76 | one `update` on a new list leaves a counter of 2 over one record, and `get(1)` then dereferences null |
| CharList.UpdateCorrectedWitness | List.java:67-76 | with the corrected update the counter is 1 and `get(1)` is out of bounds |
| Probabilities.FinalizeRow | LanguageModel.java:63-78 | finalising keeps each record's character and count and the row's length |
| Probabilities.FinalizedCpIncreasing | LanguageModel.java:72-76 | `cp` strictly increases along a row with positive counts |
| Probabilities.FinalizedCpSteps | LanguageModel.java:72-76 | each `cp` is the previous `cp` plus the record's own `p` |
| Probabilities.FinalizedLastCp | LanguageModel.java:63-78 | the last `cp` of a non-empty row is exactly 1 |
| Probabilities.FinalizedSumP | LanguageModel.java:63-78 | the `p` values of a non-empty row sum to exactly 1 |
| Probabilities.Covering | LanguageModel.java:81-91 | -1 exactly when every `cp` is below the draw; otherwise the first record whose `cp` reaches it |
| Probabilities.SampleBucket | LanguageModel.java:81-91 | a draw above the previous record's `cp` and at most record k's `cp` picks record k, and that interval is `p` of record k wide |
| Probabilities.SampleNeverFallsBack | LanguageModel.java:81-91 | on a finalised non-empty row, a draw in [0, 1) always finds a record, so the blank is never returned |
| TrainingSpec.StepWellFormed | LanguageModel.java:46-55 | one training step keeps every row non-empty, positive and duplicate-free, with every key `windowLength` long |
| TrainingSpec.StepCounts | LanguageModel.java:46-55 | one training step adds exactly one to the count of that character after that window and changes no other count |
| TrainingSpec.CountedKeys | LanguageModel.java:37-56 | after counting, the keys are the starting keys plus every window that is followed by a character |
| TrainingSpec.CountedCountsAt | LanguageModel.java:37-56 | after counting, each count is the starting count plus the number of positions where the window is followed by the character |
| TrainingSpec.FinalizeRowIdempotent | LanguageModel.java:63-78 | finalising a finalised row changes nothing |
| TrainingSpec.FinalizeTableKeeps | LanguageModel.java:57-58 | finalising every row keeps the keys, the counts and well-formedness, and leaves every row finalised |
| TrainingSpec.Trained | LanguageModel.java:37-59 | the trained table is well formed and finalised; its keys are the old keys plus the windows followed by a character; each count is the old count plus the number of occurrences |
| TrainingSpec.TrainedFromEmpty | LanguageModel.java:37-59 | training a fresh model: the keys are exactly the windows followed by a character, an input of at most `windowLength` characters leaves the table empty, and each count equals the number of occurrences |
| GenerationSpec.Walk | LanguageModel.java:100-115 | at most `n` characters are appended, and fewer only when the window reached is not in the table |
| GenerationSpec.WalkFollowsRows | LanguageModel.java:106-113 | the k-th appended character is sampled with the k-th draw from the row of the window just before it, and that window is in the table |
| GenerationSpec.WalkUsesObservedSuccessors | LanguageModel.java:81-91 | on a finalised, well-formed table with draws in [0, 1), every appended character is one that the row of its window holds |
| GenerationSpec.WalkUsesCorpusSuccessors | LanguageModel.java:37-115 | on a model trained from scratch with draws in [0, 1), every appended character follows the window before it at some position of the corpus |
| GenerationSpec.TrainAndWalkExample | LanguageModel.java:37-115 | training on "aab" with window 1 gives the row ('b', p 0.5, cp 0.5), ('a', p 0.5, cp 1); draws 0.7, 0.2 give "ab", then the walk stops at "b" |
| LanguageModels.LanguageModel.constructor | LanguageModel.java:21-34 | a new model has the given window length and an empty table |
| LanguageModels.LanguageModel.Train | LanguageModel.java:37-59 | the table becomes `Trained` of the old table and the corpus, and the model's invariant is kept |
| LanguageModels.LanguageModel.CountSuccessor | LanguageModel.java:45-55 | the loop body advances the table to the next `Counted` stage and returns the slid window |
| LanguageModels.LanguageModel.FinalizeRows | LanguageModel.java:57-58 | every row becomes `FinalizeRow` of its records, and the map itself is unchanged |
| LanguageModels.LanguageModel.CalculateProbabilities | LanguageModel.java:63-78 | the list's records become `FinalizeRow` of its old records and its counter is unchanged |
| LanguageModels.LanguageModel.GetRandomChar | LanguageModel.java:81-91 | returns `Sample` of the list's records for the draw |
| LanguageModels.LanguageModel.Generate | LanguageModel.java:100-115 | a text shorter than the window comes back unchanged; otherwise the result is the text followed by `Walk` from its last `windowLength` characters |

## Left out

- File input (`In`, reading a file character by character): `Train` takes the corpus as a string.
- `java.util.Random`, `nextDouble()` and the seed: `Generate` takes the draws as a parameter, so the two constructors are one and the seed is not modelled.
- IEEE double arithmetic: `p` and `cp` are exact reals, so rounding that could leave the last `cp` just below 1 is not modelled.
- The iteration order of `HashMap.values()`: `FinalizeRows` finalises the rows in an arbitrary order, which is sound because each row is finalised independently.
- `List.toString` and `LanguageModel.toString` (text formatting) and `main` (argument parsing and printing).
- The source files of `Node`, `CharData` and `ListIterator` are not part of this model. `CharData` is modelled as the value `CharRecords.CharData`, and `CharRecords.Fresh` stands for `new CharData(chr)`. A `Node` is one position of `elems`, and a `ListIterator` is the suffix of `elems` it would visit. What these classes do is inferred from how the core uses them: `CharData.equals(char)` compares the character, a new record has count 1 and probabilities 0, and a `ListIterator` yields the records from its node to the end of the chain.
- Characters are Dafny `char`, which is a whole Unicode scalar value, while a Java `char` is a UTF-16 code unit. A corpus with characters outside the Basic Multilingual Plane is therefore not modelled character for character. For "😀a" with a window of 1, the source would key its rows by the surrogate halves "\uD83D" and "\uDE00", and it could generate a lone surrogate. The model treats the emoji as one character.
- Java's 32-bit `int` overflow of `size`, `count`, `letters` and `totalCount`: integers are unbounded.
- Aliasing of records: records are values stored in the list, not shared objects.
- LanguageModels.LanguageModel.constructor: requires `windowLength >= 1`. The source accepts any int, but with a window of 0 or less, training a non-empty corpus fails at `window.substring(1)`; that failure is not modelled.
- LanguageModels.LanguageModel.CalculateProbabilities: requires a non-zero counter and positive counts. In the source, a counter of 0 makes `listIterator` return null, and an all-zero row would divide 0 by 0. Neither happens during training.
- LanguageModels.LanguageModel.GetRandomChar: requires a non-zero counter, because the null iterator of an empty list is dereferenced.
- LanguageModels.LanguageModel.Generate: requires a draw for every possible step and a non-zero counter in every row (`RowsNonEmpty`), which holds after any training.
- LanguageModels.LanguageModel.Train: counts with `UpdateCorrected` instead of the as-written `Update` (see Findings). The two produce the same records. Only the counter differs, and `LanguageModel` reads the counter only to test it against 0 in `listIterator`, and there the two agree.
- `CountSuccessors`, `CountSuccessor`, `CountSeen`, `AddRow` and `FinalizeOne` are not methods of the source. They are the loop bodies of `train`, split out so that each proof stays small.

## Findings

| source | as written | input that shows it | evidently intended | confidence | as-written member | corrected member |
|---|---|---|---|---|---|---|
| List.java:69-71 | when the character is new, `update` calls `addFirst`, which already increments `size`, and then increments `size` again | a new list, then `update('a')`: `size` is 2 with one node, and `get(1)` passes the bounds check and dereferences null | `size` goes up by one, so it stays the number of elements, as the field comment says | high, not executed | CharList.List.Update, CharList.UpdateDriftWitness | CharList.List.UpdateCorrected, CharList.UpdateCorrectedWitness |
