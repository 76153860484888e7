# Wordle solver engine in Dafny

This project models the solving engine of a Wordle solver and proves properties of it.
The engine has five parts.

- **Feedback rules** (`rules.dfy`, module `Rules`). A guess against an answer gives one
  Gray/Yellow/Green state per position, tagged with the guessed letter. The rule can also
  be decoded from a `0`/`1`/`2` mask typed by a player. The module also says when a
  candidate word is consistent with a rule, and how a list is filtered by a rule.
  Duplicate letters follow the solver's simplified rule. A guessed letter that is not in
  its place is Yellow whenever it occurs anywhere in the answer. No occurrence of the
  answer is used up.
- **The game loop** (`games.dfy`, module `Games`). A game holds a dictionary and an
  optional rule known in advance. Each round the strategy picks a guess, the interface
  answers with a rule, and the candidate list is filtered by it. The simulated interface,
  which knows the answer, is modelled too.
- **The older direct consistency test** (`simulation.dfy`, module `Simulation`). It decides
  from (guess, answer, word) without building a rule. It is proved to agree with building
  the rule and checking against it.
- **The counting map** (`counter.dfy`, module `Counter`). A hash map from keys to counts,
  with `increment` and "count an iterator", as a class over a Dafny `map`.
- **Strategies.** The entropy strategy (`active.dfy`, module `Active`; `strategy_active.dfy`,
  module `StrategyActive`, is its second copy). The frequency baseline (`baseline.dfy`,
  module `Baseline`): it counts letters per column into a 2-D array, then greedily picks
  distinct letters.
- **Words** (`words.dfy`, module `Words`). Building a fixed-length word from a string, and
  displaying it.

`wrappers.dfy` holds `Option` and `Result`. `seqs.dfy` holds facts about subsequences and
about mapping over permutations.

Modelling choices:

- The source's words and rules are arrays of one compile-time length `SIZE`. Here they are
  sequences.
  - The rule functions zip like the source. They visit `min` of the lengths.
  - A derived rule has one state per guessed letter. Positions beyond the zip keep the
    pre-filled `Gray('a')`.
  - Lemmas that need one common length (what `SIZE` guarantees) require it.
- Panics are modelled in three ways.
  - As error values where the caller could meet them: a bad mask character gives `None`,
    and a string of the wrong length gives `Failure(LengthMismatch(..))`.
  - As preconditions of the strategies. `Game::play` never hands them an empty candidate
    list or, past the short circuit, an empty dictionary (`Games.DictionaryNonEmpty`).
  - As preconditions of the baseline, which do exclude panics a caller can reach (see
    "## Left out"): `SIZE > 26`, and a char whose code's low byte is not one of `a..z`.
- The interface and the strategy of the game loop are function parameters.
  - The interface maps a guess to its rule.
  - The strategy maps (full dictionary, current candidates) to a guess.
- The entropy strategy scores a partition with f64 arithmetic. Here the score is a
  parameter: any function from the multiset of group sizes to a float, where a float is
  an ordered value or NaN. The partition, the `min_by_key` fold with its tie-break, the
  NaN-tolerant comparison and the short circuit are what is modelled and proved.
- The baseline's `c as u8` keeps the low 8 bits of a char's code. The model does the same:
  the count column is `code % 256 - 'a'`.
- `Game::play` loops until at most one candidate is left. Nothing bounds its number of
  rounds, so the model's `Play` takes a round budget `maxRounds` and says whether it
  finished or ran out.

## Model

| member | source | states |
|---|---|---|
| Words.FromString | src/lib.rs:20-24 | Succeeds exactly when the string has `size` chars; the word's letters are then that string's chars in order (so displaying it gives the string back). Otherwise it fails with `LengthMismatch` of `size` and the string's length, standing for the `clone_from_slice` panic. |
| Words.FromStr | src/lib.rs:27-31 | Gives the same result as `from_string` on the string. |
| Words.FromOwned | src/lib.rs:33-37 | Gives the same result as `from_string` on the string. |
| Words.Display | src/lib.rs:39-43 | The display has one char per letter, and building a word of the word's length from it gives the word back. |
| Words.DisplayParse | src/lib.rs:20-43 | A string of exactly `size` chars builds a word whose display is that string. |
| Rules.FromQuery | src/game.rs:27-41 | At each zipped position the state carries the guessed letter. It is Green iff guess and answer agree there, Yellow iff they differ and the guessed letter occurs in the answer, and Gray iff the guessed letter does not occur in the answer. There is one state per guessed letter. |
| Rules.FromMask | src/game.rs:14-25 | Decodes `0`/`1`/`2` to Gray/Yellow/Green of the guessed letter. The result is `None` (the panic) iff some zipped mask char is something else. |
| Rules.WrongGuessFails | src/game.rs:27-49 | A guess of the answer's length that is not the answer fails the rule it produced, so filtering drops every copy of it. |
| Rules.CheckAllGreen | src/game.rs:43-49 | A word as long as an all-Green rule passes it iff the word is the rule's guessed word. (What else `check` means is stated by `SelfConsistent`, `PassesOwnRule` and `Simulation.AgreesWithRule`.) |
| Rules.Filter | src/game.rs:51-57 | The result holds exactly the words of the input that pass the rule, and is no longer than the input. |
| Rules.FilterCounts | src/game.rs:51-57 | A word that passes occurs in the result as often as in the input, and a word that fails does not occur: repeated words are kept. |
| Rules.QueryRuleTags | src/game.rs:29-38 | A derived rule is tagged with the guessed letters, never the answer's. |
| Rules.SelfConsistent | src/game.rs:27-49 | The answer always passes the rule it produced. |
| Rules.AllGreenIffEqual | src/game.rs:29-38 | For words of one length, the derived rule is all Green iff guess and answer are equal. |
| Rules.TaresAgainstCrane | src/game.rs:29-38 | Guessing `tares` against `crane` gives Gray t, Yellow a, Yellow r, Yellow e, Gray s. |
| Rules.MaskRoundTrip | src/game.rs:14-25 | Every rule is decoded back from its own mask and tags. |
| Rules.MaskOfQueryRule | src/game.rs:14-41 | For words of one length, the mask of a derived rule decodes to that rule. |
| Rules.FilterIsSubsequence | src/game.rs:51-57 | The filtered list keeps the input's order: it is a subsequence of the input. |
| Rules.FilterAllPass | src/game.rs:51-57 | Filtering a list whose words all pass leaves it unchanged. |
| Rules.FilterIdempotent | src/game.rs:51-57 | Filtering twice by the same rule is filtering once. |
| Simulation.FilterWordList | src/simulation.rs:31-46 | The result holds exactly the words of the input that pass the direct test, and is no longer than the input. |
| Simulation.FilterWordListCounts | src/simulation.rs:31-46 | A word that passes the direct test occurs in the result as often as in the input, and a word that fails does not occur. |
| Simulation.ScanFromMeaning | src/simulation.rs:13-27 | The `for` loop from position `i` returns true iff no position from `i` on is rejected. |
| Simulation.CheckMeaning | src/simulation.rs:3-29 | The direct test (`Simulation.Check`) passes iff at every zipped position: where the guess matched the answer the word has that letter; where it did not but the letter is in the answer, the word has the letter elsewhere and not there; where the letter is not in the answer, the word lacks it. |
| Simulation.TruthPasses | src/simulation.rs:3-29 | The answer always passes the direct test. |
| Simulation.AgreesWithRule | src/simulation.rs:3-29 | For words of one length, the direct test equals deriving the rule from guess and answer and checking the word against it. |
| Simulation.FilterWordListIsSubsequence | src/simulation.rs:31-46 | The filtered list is an order-preserving subsequence of the input. |
| Simulation.FilterWordListAgrees | src/simulation.rs:31-46 | For words of one length, filtering directly gives the same list as filtering by the derived rule. |
| Counter.Bump | src/counter.rs:17-20 | After incrementing `k` by `amount`, `k` maps to its old count (0 if absent) plus `amount`. The keys are the old keys plus `k`, and every other key keeps its count. |
| Counter.CountMap.Increment | src/counter.rs:17-20 | Updates the map in place as `Bump` states. |
| Counter.CountMap.FromIter | src/counter.rs:9-15 | A fresh counter whose map is the count of the items, built by incrementing each item by 1 in order. |
| Counter.TallyOccurrences | src/counter.rs:9-15 | The keys are exactly the items, and each key maps to its number of occurrences. |
| Counter.TallyPositive | src/counter.rs:9-15 | Every count is at least 1. |
| Counter.TallySum | src/counter.rs:9-15 | The counts add up to the number of items. |
| Counter.TallyPermutation | src/counter.rs:9-15 | The counter depends only on the multiset of items, not their order. |
| Active.PartialCmp | src/active.rs:40-44 | The f64 comparison of two scores: undefined iff either is NaN, and otherwise Less, Equal or Greater exactly as the values compare. |
| Active.Cmp | src/active.rs:46-51 | The total order on scores: Equal whenever the f64 comparison is undefined (a NaN), so it never panics. Otherwise it agrees with the comparison of the values. |
| Active.MinIndex | src/active.rs:14-22 | The `min_by_key` fold: when no key is NaN, it picks a position holding the smallest key with every earlier key strictly larger, so ties go to the earliest. |
| Active.SelectQuery | src/active.rs:6-23 | With at most two candidates, the first candidate. Otherwise a query of the full list, and (with no NaN score) the first one whose partition has the smallest score. It needs a non-empty candidate list, and a non-empty full list past the short circuit, where the source would panic. |
| Active.GroupsPartition | src/active.rs:17-19 | The rules counted for a query come from the candidates, each count is at least 1, and the counts add up to the number of candidates. |
| Counter.ValueBagRemove | src/active.rs:20 | The multiset of a counter's values is the count of any one key plus the values of the rest, whichever key is taken first. |
| Counter.ValueBagSize | src/active.rs:20 | A counter yields one value per key. |
| Counter.ValueBagCount | src/active.rs:20 | Each count occurs among the values exactly as often as there are keys mapping to it. |
| Counter.ValueBagMembers | src/active.rs:17-20 | The values a counter yields hold each count exactly as often as there are keys mapping to it; so there is one value per key. |
| Active.GroupSizes | src/active.rs:17-34 | The score `expected_entropy` gives a query is the score of its group sizes: each size occurs as often as there are distinct rules whose group has that many candidates, and each lies between 1 and the number of candidates. |
| Active.ScoreIgnoresOrder | src/active.rs:14-34 | A query's score depends only on the multiset of candidates, not their order. |
| Active.KeysIgnoreOrder | src/active.rs:14-34 | The score of every query of the list does not depend on the order of the candidates. |
| Active.SelectIgnoresOrder | src/active.rs:11-34 | With more than two candidates, reordering them does not change the guess. |
| StrategyActive.SelectQuery | src/strategy/active.rs:6-25 | The same contract as `Active.SelectQuery`, over allowed queries and possible words. |
| Baseline.CountableExamples | src/baseline.rs:9 | `'A'` and `'-'` make the counting loop panic, while U+0161 (low byte `0x61`) is counted as `a`. |
| Baseline.CountLetters | src/baseline.rs:6-11 | A fresh SIZE×26 table in which `count[n][k]` is the number of words whose char at position `n` falls in column `k`. |
| Baseline.MaxFromCorrect | src/baseline.rs:13-18 | The `max_by_key` fold over the unused letters: the result is an unused letter with the largest count, and every later unused letter has a strictly smaller count, so ties go to the last. It finds none only when every letter is used. |
| Baseline.BestLetterCorrect | src/baseline.rs:13-18 | Over all 26 letters: no letter is picked iff all are used, and a picked letter is the last unused one with the largest count. |
| Baseline.UnusedLetter | src/baseline.rs:13-18 | Fewer than 26 used letters leave an unused one, so the `unwrap` cannot panic when SIZE ≤ 26. |
| Baseline.SelectQuery | src/baseline.rs:5-19 | The guess is the greedy choice computed from the count table. It ignores the first argument. |
| Baseline.GreedyStep | src/baseline.rs:13-18 | Each position extends the earlier ones by their best unused letter, which differs from all of them. |
| Baseline.GreedyPrefix | src/baseline.rs:13-18 | The guess's first `m` letters are the shorter guess of length `m`. |
| Baseline.GreedyCorrect | src/baseline.rs:13-18 | Every letter of the guess lies in a..z. No two letters are equal. Each position holds the unused letter with the largest count at that position, ties going to the last letter. |
| Baseline.ColumnCountPermutation | src/baseline.rs:7-11 | The count table depends only on the multiset of words. |
| Baseline.GreedyIgnoresOrder | src/baseline.rs:5-19 | The guess does not depend on the order of the words. |
| Games.SimulatedRule | src/game.rs:70-75 | The simulated interface's rule is one the answer passes, with one state per guessed letter. For words of one length it is all Green iff the guess is the answer. |
| Games.StartList | src/game.rs:106-110 | The first candidates are the dictionary's words that pass the first rule (all of them when there is none), in dictionary order. |
| Games.StartListCases | src/game.rs:106-110 | Without a first rule the first candidates are the dictionary itself; with one they are the dictionary filtered by it, so repeated words are kept (`Rules.FilterCounts`). |
| Games.Head | src/game.rs:117 | The first remaining candidate: None iff none remain. |
| Games.Play | src/game.rs:100-118 | Each round filters the candidates by the rule for the strategy's guess. The strategy always sees the full dictionary. Rounds are played only while more than one candidate is left. A finished game returns the first remaining candidate, None iff none remain. A game that runs out of its round budget still has more than one candidate. |
| Games.PlayStep | src/game.rs:111-115 | A round played on more than one candidate adds one to the rounds played, and its candidates are the previous ones filtered by the rule for the strategy's guess. |
| Games.AfterShrinks | src/game.rs:111-116 | Each round keeps an order-preserving part of the candidates, so the list never grows. |
| Games.AfterIsSubsequence | src/game.rs:106-116 | Every candidate list is an order-preserving subsequence of the starting list. |
| Games.AfterMembers | src/game.rs:106-116 | After `k` rounds the candidates are exactly the starting candidates that pass every rule received so far (both directions). |
| Games.TruthSurvives | src/game.rs:70-116 | With the simulated interface, an answer among the first candidates stays a candidate in every round. |
| Games.SimulatedGameFindsTruth | src/game.rs:70-118 | With the simulated interface, when at most one candidate is left it is exactly the answer, and the game returns it. This needs the answer in the dictionary and passing the first rule. |
| Games.CandidateInDictionary | src/game.rs:106-116 | Every candidate in every round is a word of the dictionary. |
| Games.DictionaryNonEmpty | src/game.rs:111-113 | While a round is still to be played the dictionary is not empty, so the strategies' empty-list panics are never reached from `Game::play`. |
| Games.RepeatedAnswerNeverFinishes | src/game.rs:111-116 | A dictionary holding the answer `a` twice, with the simulated interface and a strategy that always guesses `a`, keeps both copies in every round: the loop never ends. |
| Games.PassesOwnRule | src/game.rs:43-49 | A word of the answer's length that passes the answer's all-Green rule is the answer. |
| Games.GuessingTruthEnds | src/game.rs:111-116 | With the simulated interface and words of one length, a round in which the strategy guesses the answer leaves only the answer. |

## Left out

- Printing (`println!` in `Simulation::get_rule` and `Game::play`) is not modelled, because it has no effect on results.
- Reading a mask from stdin (`UserInput::get_rule`) is not modelled, because it is I/O. Its decoding step is `Rules.FromMask`.
- The interface is modelled as a pure function of the guess (`Games.Play`'s `feedback`). A real player's answers need not be a function.
- Games.Play: takes a round budget `maxRounds`, because the source loop has no bound and need not terminate. Within the budget it follows the source's loop exactly.
  - It proves nothing about termination in general. `Games.RepeatedAnswerNeverFinishes` shows that the source loop need not end: a dictionary that holds the answer twice (which `load_words` allows, for instance `Crane` and `crane` once lowercased) keeps both copies once the answer is guessed. Its all-Green rule admits every copy, and the short circuit (src/active.rs:11-13) then guesses it again forever. A guessed word that is not the answer is dropped with all its copies, since it fails its own rule (`Rules.WrongGuessFails`).
  - It also returns the number of rounds played, which the source does not.
- Active.SelectQuery: the score is an uninterpreted function of the multiset of group sizes, because the source's `n * ln n` sum is f64 arithmetic. A sum over floats can in principle depend on the order the hash map yields its values; this model ignores that.
- Active.SelectQuery: is a ghost function, because the multiset of a map's values is defined by choice. The multiset does not depend on that choice (`Counter.ValueBagRemove`).
- StrategyActive.SelectQuery: is defined by `Active.SelectQuery`, because the two source versions are the same code.
- Hash map internals and the iteration order of `values()` are not modelled. The counter is a Dafny `map`.
- `usize` overflow of the counts is not modelled. Counts here are unbounded, since a count never exceeds the number of candidates.
- Baseline.SelectQuery: its panics are preconditions, and callers can reach them. `load_words` keeps any lowercased line of SIZE bytes, such as `ab-cd`. The table index `c as u8 - b'a'` is out of range unless the low byte of the char's code is one of `a..z` (`Baseline.Countable`): `'A'` and `'-'` panic, while U+0161 counts as `a`. The `unwrap` panics when SIZE exceeds 26.
- Baseline.CountLetters: `i32` overflow of the count table (the literal `0` defaults to `i32`) is not modelled. Counts here are unbounded; a count overflows only past 2^31 - 1 words.
- The parts below are not part of this model:
  - the random baseline (`src/strategy/baseline.rs`, an unseen random-number library);
  - the strategy dispatch (`src/strategy/mod.rs`, whose target game type is not part of the sources);
  - the command-line programs (`src/main.rs`, `src/bin/`);
  - the word-list loaders (`load_words`, `official_word_list`: file reading).
- `Game::new` is the `Games.Game` datatype constructor. It has no contract of its own.
