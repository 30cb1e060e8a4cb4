# Kana quiz core, modelled in Dafny

This project models the quiz logic of a single-page kana (Japanese
syllabary) flashcard trainer. The learner picks a script (hiragana,
katakana or both), a sound class (seion, dakuon, yoon or all) and a
number of questions. The quiz screen then builds a question list. Each
question is one target kana and five options drawn from the pool: the
entries that pass both filters, or the whole catalog when fewer than
five pass. The screen tallies right and wrong answers, with a miss count per
kana, and the summary screen lists the ten most-missed kana.

Modules, one per component of `App.tsx`:

- `Kana` (`kana.dfy`): the catalog entry and question shapes of
  `types.ts`, the id scheme of the catalog, `Filter` (the array filter)
  and the facts about unique ids that the builder relies on.
- `Shuffle` (`shuffle.dfy`): `shuffleArray`, a Fisher–Yates shuffle on a
  fresh array copied from the input. The random index of each step is a
  nondeterministic choice `j :| 0 <= j <= i`, so what is proved holds for
  every outcome of the random source.
- `QuestionBuilder` (`builder.dfy`): the initialising effect of the quiz
  screen. It filters by script and sound class, falls back to the whole
  catalog below five entries, clamps the count, draws the targets from a
  shuffled pool, and gives each target up to four distractors from the
  same pool.
- `Score` (`score.dfy`): `confirmAnswer`'s update of the tally, a replay
  of a whole session, and what the replay counts.
- `Session` (`session.dfy`): the quiz screen's state as a class. Its
  methods are `confirmAnswer`, `handleSelect` and `nextQuestion`.
- `Summary` (`summary.dfy`): the `topErrors` pipeline of the summary
  screen. It sorts by count from most to least (stably), keeps the first
  ten, and looks each id up in the catalog.

The miss history is a JavaScript object keyed by kana id. Such an object
keeps its string keys in insertion order, and `Object.entries` returns
them in that order. The summary's stable sort then keeps that order among
ties. So the model keeps the history as a sequence of `Entry(id, count)`:
`{...h, [id]: v}` overwrites an existing key in place and appends a new
one (`Score.Assign`). The usual map view is `Score.Lookup`, which returns
0 for an absent key, as `h[id] || 0` does.

The two catalog facts are preconditions of `BuildQuestions` and are not
modelled as data. Ids are unique: every id is `kana_` followed by the
character, and the characters are distinct (`Kana.DistinctCharsGiveUniqueIds`).
The catalog also has at least five entries.

Where the source's own comments and its code could be read differently,
the model follows the code:
- The `Question` type's comment promises 5 options (types.ts:25). The
  code gives `1 + min(4, |pool| - 1)` (App.tsx:232-234), because
  `slice(0, 4)` takes what there is. That is exactly five only because
  the pool always has at least five entries, which `BuildQuestions`
  proves.
- Answers are compared by id (App.tsx:265), not by object identity.
- The miss history is typed as a `Record<string, number>` (types.ts:31),
  but its key order matters: `Object.entries` returns keys in insertion
  order and the stable sort of App.tsx:456 keeps that order among ties.
  So the model keeps it as an insertion-ordered sequence, not an
  unordered mapping.

## Model

| member | source | states |
|---|---|---|
| `Shuffle.ShuffleArray` | App.tsx:20-27 | the result has the input's length and is a permutation of it (same multiset) for every choice of random indices; the input is copied into a fresh array, so the caller's sequence is untouched |
| `Shuffle.SwapKeepsMultiset` | App.tsx:24 | exchanging two cells of a sequence keeps its multiset of elements |
| `Kana.IdOf` | kanaData.ts:4 | an id starts with the `kana_` prefix and the rest of it is the character, so the character can be read back from the id |
| `Kana.DistinctCharsGiveUniqueIds` | kanaData.ts:205 | ids built as `kana_` + char from pairwise distinct chars are pairwise distinct |
| `Kana.UniqueIdsGiveMultiset` | App.tsx:228 | a sequence with unique ids has a multiset where each entry occurs at most once and one id means one entry |
| `Kana.MultisetGivesUniqueIds` | App.tsx:228 | the converse: such a multiset comes only from sequences with unique ids |
| `Kana.PermutationKeepsUniqueIds` | App.tsx:228 | any reordering of a sequence with unique ids has unique ids (what a shuffle of the pool keeps) |
| `Kana.PrefixOfPermutationIn` | App.tsx:228 | every element of a prefix of a reordering of `s` is an element of `s` (`shuffleArray(pool).slice(0, count)` stays in the pool) |
| `Kana.Filter` | App.tsx:213-219 | the filtered sequence holds exactly the input elements the predicate keeps, is no longer than the input, and keeps ids unique |
| `Kana.Others` | App.tsx:232 | the distractor candidates are exactly the pool entries whose id differs from the target's |
| `Kana.FilterOutOneId` | App.tsx:232 | in a pool with unique ids that holds the target, removing the target's id leaves exactly one entry fewer |
| `Kana.FilterKeepsAll` | App.tsx:232 | removing an id that no entry has changes nothing |
| `Kana.ConsKeepsUniqueIds` | App.tsx:234 | the target put in front of distractors with unique ids, none sharing its id, gives a list with unique ids |
| `QuestionBuilder.FilterBySettings` | App.tsx:213-219 | an entry is in the filtered pool iff it is in the catalog and passes both levels: its script equals the chosen one unless `mixed`, and its sound class equals the chosen one unless `all`; unique ids are kept |
| `QuestionBuilder.SelectPool` | App.tsx:213-222 | with five or more filtered entries, the pool holds exactly the catalog entries passing both filters; with fewer, it is the whole catalog; it is always inside the catalog, has at least five entries when the catalog has, and keeps ids unique |
| `QuestionBuilder.BuildOptions` | App.tsx:231-235 | every option is the target or a pool entry with another id; the target occurs exactly once; ids are unique when the pool's are; there are `1 + min(4, |others|)` options, which is `1 + min(4, |pool| - 1)` when the target is in the pool |
| `QuestionBuilder.BuildQuestions` | App.tsx:211-240 | exactly `min(questionCount, |pool|)` questions; each target is in the pool; targets are pairwise distinct by id; every question's options come from the pool, hold the target exactly once, have unique ids and number `1 + min(4, |pool| - 1)`, which is 5 |
| `Score.Lookup` | App.tsx:274 | a key absent from the history reads as 0 (`|| 0`) |
| `Score.Assign` | App.tsx:272-275 | the object spread with a computed key adds `id` to the keys, keeps every existing key in its place, and appends a new key at the end |
| `Score.KeysCons` | App.tsx:272-275 | the keys of an entry followed by a history are that entry's key and the history's keys |
| `Score.AssignUpdates` | App.tsx:272-275 | on a history with distinct keys, assigning keeps the keys distinct, stores the value under the key and leaves every other key's count unchanged |
| `Score.RecordMiss` | App.tsx:272-275 | a miss adds the target's id to the keys and raises its count by one (from 0 if absent); all other counts stay the same and keys stay distinct |
| `Score.ConfirmAnswer` | App.tsx:263-277 | `total` rises by one; `correct` rises by one iff the chosen id equals the target id, else it stays; a right answer leaves the history unchanged; a miss adds one to the target's count and changes no other key's count |
| `Score.ReplayTallies` | App.tsx:268-276 | after any sequence of answers, `total` is their number, `correct` the number of right ones, keys are distinct, and each id's count is its number of misses, with a key present iff that id was missed |
| `Score.CorrectAtMostTotal` | App.tsx:268-276 | right answers never exceed the total, and right answers plus misses make up the total |
| `Score.LookupFinds` | App.tsx:274 | in a history with distinct keys, looking up an entry's key yields that entry's count |
| `Score.TwoMissesThenHit` | App.tsx:268-276 | two misses on one kana and then a right answer on it give total 3, correct 1 and a history of that kana with 2 misses |
| `Session.QuizSession.constructor` | App.tsx:203-208 | a session starts on question 0, unanswered, nothing selected, with an empty tally and not finished |
| `Session.QuizSession.ConfirmAnswer` | App.tsx:263-277 | marks the question answered and sets the tally to `Score.ConfirmAnswer` of the old tally, the chosen option and the current target; the index, selection and finish state are unchanged |
| `Session.QuizSession.Select` | App.tsx:250-261 | in the listening mode an answered question ignores the pick, otherwise it records the pick and confirms it; in the reading mode it records the pick and leaves the tally and answered flag alone |
| `Session.QuizSession.NextQuestion` | App.tsx:279-287 | before the last question the index rises by exactly one and the answer and selection are cleared; on the last one the index stays and the current tally goes to the finish handler; the index stays in `[0, |questions|)` |
| `Summary.Insert` | App.tsx:456 | inserting adds exactly the one entry (multiset) and puts either it or the old first entry in front |
| `Summary.InsertKeepsSorted` | App.tsx:456 | inserting into a list sorted by count from most to least keeps it sorted |
| `Summary.SortByCountDesc` | App.tsx:456 | the sort result is a permutation of the entries, sorted by count from most to least |
| `Summary.WithCountCons` | App.tsx:456 | the entries with a given count in a list that starts with `x` are `x` (if it has that count) followed by those of the rest |
| `Summary.InsertStable` | App.tsx:456 | inserting puts the new entry ahead of its ties and leaves the order of the other entries with each count unchanged |
| `Summary.SortIsStable` | App.tsx:456 | for every count, the entries with that count come out in the order they went in (the array sort is stable) |
| `Summary.InsertKeepsDistinct` | App.tsx:456 | inserting an entry whose key is new into a list with distinct keys keeps the keys distinct |
| `Summary.SortKeepsDistinct` | App.tsx:456 | sorting a history with distinct keys gives a list with distinct keys |
| `Summary.WithCountOfPrefix` | App.tsx:457 | the entries with a given count in a prefix of a list are a prefix of that list's entries with that count |
| `Summary.PrefixInside` | App.tsx:457 | a prefix of a reordering of the history takes each history entry at most as often as the history holds it |
| `Summary.LeftOutNotAbove` | App.tsx:457 | cutting a sorted reordering of the history leaves out only entries missed no more often than every entry kept |
| `Summary.TopEntries` | App.tsx:455-457 | `min(10, |history|)` entries, sorted from most to least missed; as a multiset they are part of the history's entries, so no entry is repeated beyond what the history holds; keys stay distinct; every history entry left out was missed no more often than any kept; for every count, the kept entries with that count are the earliest ones in insertion order with that count |
| `Summary.FindById` | App.tsx:459 | a found kana is in the catalog, has the id, and no earlier catalog entry has that id; nothing is found iff no catalog kana has the id |
| `Summary.TopErrors` | App.tsx:455-461 | at most 10 rows, `min(10, |history|)` of them, with non-increasing counts; row `i` is built from entry `i` of `TopEntries` (so it inherits that entry's guarantees): its count is that entry's, which equals the history's count for that key, and its kana is the catalog entry with that key, or none when the catalog has no such id; rows come from entries with pairwise distinct keys |

## Left out

- Rendering, CSS classes, animations and the React state and effect plumbing of `App.tsx` are not modelled: they are presentation. The model keeps only the state those hooks hold.
- The audio playback service (`audioService.ts`) is not part of this model. Its cancellation across `await` points, browser audio and speech calls, and provider URLs are asynchronous I/O. So is the auto-play effect of the quiz screen, and so is the sound played when an option is picked in the reading mode.
- The percentage on the summary screen is left out: it is floating-point division and rounding.
- The shuffle's uniformity is left out: it is a claim about probabilities. The model proves what holds for every outcome of the random source.
- The catalog's data is not transcribed. Only its two facts are used, as preconditions of `BuildQuestions`: unique ids, and at least five entries.
- The display-only kana fields (romanization, the audio provider's key, the kanji origin) and the audio-source setting are left out. No logic reads them.
- The question count is a natural number. The settings slider only yields 20 to 200, so the negative-count behaviour of `slice` is not modelled.
- The finish handler `onFinish` and the exit handler are not modelled as code. `Session.QuizSession.NextQuestion` records the tally handed to `onFinish` in the `finished` field.
- Session.QuizSession.ConfirmAnswer: requires at least one question. The UI only offers answering once the list is non-empty (it shows a spinner otherwise), so the empty case is unreachable.
