# speech-tag-identifier in Dafny

This is a model of the part-of-speech taggers of speech-tag-identifier and of the
step that turns recognised speech into test sentences. Three operations are covered.

- `baseline(train, test)` in `algorithm.py` gives every test word the tag it carried most
  often in training. A word never seen in training gets the most frequent tag overall.
- `viterbi(train, test)` in `algorithm.py` trains on the corpus and then decodes each test
  sentence. Training counts tags, initial tags, tag transitions and word emissions. Decoding
  fills a trellis of scores and reads the best tag sequence back from stored pointers.
- `format_speech(list_of_sentences)` in `speech.py` splits each utterance on whitespace and
  wraps it as `['START'] + tokens + ['END']`.

Each module is generic over the word type `W` and the tag type `T`. The sentinels the
program spells out are parameters:

| sentinel | in the program |
|---|---|
| `start` | `'START'` |
| `empty` | `'EMPTY'` |
| `unknown` | `'UNKNOWN'` |
| `misspelt` | `'UKNOWN'` |

The program's own instance takes `W = T = string` with these literal values. The speech
module works on `string` directly; it uses `Corpus.START` and `Corpus.END`.

Modules:

- `Corpus` (`corpus.dfy`): the shared definitions.
  - Tagged sentences as sequences of `(word, tag)` pairs, and the sentinels.
  - The Python exceptions the code can raise: `IndexError`, `KeyError` and `ValueError`.
  - A `Result` type that carries either a value or one of those exceptions.
- `Counters` (`counters.dfy`): `collections.Counter` as an insertion-ordered key sequence
  with counts.
  - `max(counter, key=counter.get)`, which returns the first key of greatest count.
  - The decoder's strict-improvement scan from a floor.
- `Baseline` (`baseline.dfy`): `baseline`. The counting loop and the tagging loops are
  methods proved against spec functions.
- `Trainer` (`trainer.dfy`): the training stage of `viterbi`, with exact integer counts.
- `Trellis` (`trellis.dfy`): what the decoder computes, stated as functions over integer
  score tables.
  - The columns and back pointers, the backtrace, and the output sentence.
  - The proof that the traced path has the best path score.
- `Decoder` (`decoder.dfy`): the decoder itself, as methods.
  - It fills an `array2<int>` trellis and an `array2<nat>` pointer table in place, column
    by column.
  - It scans for the final tag, backtraces, and decodes every test sentence.
  - `Viterbi` composes training with decoding.
- `Speech` (`speech.dfy`): `format_speech` and Python's `str.split()`.

What the model follows where the prose description and the code differ:

- **Baseline on an empty training set.** The code raises `ValueError`, because `max` runs
  on an empty Counter. This happens only when some test sentence has a word.
- **The `"UKNOWN"` key in the first trellis column.** The code reads this misspelt key from
  a `Counter`, so a missing key reads 0 rather than raising.
  - The model keeps this reading through `Scores.misspelt`.
  - Later columns read `"UNKNOWN"`.
- **Test sentences shorter than two tokens.** The code raises `IndexError` when there are
  tags. With no tags it returns `[('START', 'START')]`.
  - With no tags, a sentence of two or more tokens raises `IndexError` at `pointers[0]`.
- **Transition rows.** Transitions are counted only between consecutive tags of a
  sentence. This includes `START` to the first word's tag.
  - After a tag that is literally `'EMPTY'`, the next pair is skipped.
- **When no candidate beats the floor.** If no candidate beats `-(2**63 - 2)`, the cell
  reads `transition_prob['EMPTY'][tag]`. The model names that row `Scores.unmatched`.

## Model

| member | source | states |
|---|---|---|
| Counters.Inc | algorithm.py:25-26 | a Counter increment adds one to that key only; a new key goes to the end of the insertion order |
| Counters.TallyCounts | algorithm.py:23-26 | counting a stream gives each key exactly its number of occurrences |
| Counters.TallyOrder | algorithm.py:23-26 | a Counter's keys are in the order of their first occurrence in the stream |
| Counters.ArgMaxSpec | algorithm.py:32 | `max(c, key=c.get)` has the greatest count, and every key before it has a strictly smaller one |
| Counters.ArgMaxFirst | algorithm.py:32 | any key tied with the maximum comes no earlier than the one `max` returns |
| Counters.ScanSpec | algorithm.py:146-154 | the decoder's scan ends at least at the floor; it rises above the floor iff some value does; it then holds the first greatest value and its index, and otherwise index 0 |
| Baseline.MostFrequentIsMax | algorithm.py:31-34 | the tag `max` picks has a count no other tag exceeds |
| Baseline.TrainedCounts | algorithm.py:23-26 | after training, `seen` holds exactly the training words, each with the tally of its own tags, and `tags` is the tally of all tags |
| Baseline.Count | algorithm.py:19-26 | the training loops build the tables `Trained` specifies for the flattened corpus |
| Baseline.TagWord | algorithm.py:31-34 | one test word is tagged as `Choose` says: from its own row when seen, else from the overall tag counts |
| Baseline.TagSentence | algorithm.py:29-35 | one test sentence is tagged word by word as `TagWords` says, stopping at the first exception |
| Baseline.Tag | algorithm.py:10-36 | `baseline(train, test)` returns `Tagging` of the trained tables over the test set |
| Baseline.TagWordsShape | algorithm.py:29-35 | a tagged sentence succeeds iff every word does; it keeps the words in order, each paired with its chosen tag, and its only exception is ValueError |
| Baseline.TaggingShape | algorithm.py:28-35 | the output has one tagged sentence per test sentence, in order, or the ValueError of a failing word |
| Baseline.ChooseTrainedErr | algorithm.py:31-34 | choosing a tag fails exactly when the training corpus has no pair, and the failure is ValueError |
| Baseline.TaggingTrainedErr | algorithm.py:28-35 | `baseline` raises iff training is empty and some test sentence has a word, and then raises ValueError |
| Baseline.MostFrequentOfTally | algorithm.py:31-34 | the tag picked from a tally occurs most often, and among tied tags it is the first to occur |
| Baseline.FirstAmongEqual | algorithm.py:31-34 | a tag tied with the picked one occurred for the first time later than it |
| Baseline.ChooseTrained | algorithm.py:31-34 | a seen word gets the most frequent of its own tags; an unseen word gets the most frequent tag overall |
| Baseline.SeenWordTag | algorithm.py:31-32 | a seen word's tag occurred with it, at least as often as any other tag did, and first among the tied tags |
| Baseline.SingleTagWord | algorithm.py:31-32 | a word always trained with one tag is given that tag |
| Baseline.UnseenWordTag | algorithm.py:33-34 | an unseen word gets the overall most frequent tag, first among ties |
| Baseline.DominantTagForUnseen | algorithm.py:33-34 | an unseen word gets the tag that strictly outnumbers every other tag |
| Trainer.NonStartCounts | algorithm.py:52-58 | skipping `'START'` removes exactly its occurrences and keeps every other tag's count |
| Trainer.TagCountsSpec | algorithm.py:52-58 | the tag Counter holds every training tag except `'START'`, each with its number of occurrences |
| Trainer.CountTags | algorithm.py:52-59 | the tag-counting loop builds `TagCounts` of the flattened corpus |
| Trainer.ZeroFillSpec | algorithm.py:66-67 | zero-filling sets each listed key to 0 and keeps the rest of the dictionary |
| Trainer.ZeroRow | algorithm.py:66-67 | the zero-filling loop builds `ZeroFill` |
| Trainer.CountInitial | algorithm.py:65-69 | the initial-count loop builds `Initial`, including the exception it raises |
| Trainer.InitialCounts | algorithm.py:65-69 | initial counting succeeds iff every sentence has a second token whose tag is a key; it then holds exactly the tags, each with its number of sentences whose second tag it is |
| Trainer.InitialFirstError | algorithm.py:69 | the first bad sentence decides the exception: IndexError without a second token, KeyError for a tag not counted |
| Trainer.InitialSum | algorithm.py:70 | `total` of the initial counts is the number of training sentences |
| Trainer.AdmittedByTags | algorithm.py:55-69 | a sentence's second tag is a tag key iff it exists and is not `'START'` |
| Trainer.FillRowAt | algorithm.py:76-78 | filling rows adds exactly the listed rows |
| Trainer.FillAt | algorithm.py:76-78 | filling sets each listed cell to 0 and keeps every other cell and key |
| Trainer.FillRows | algorithm.py:76-78 | the nested zero-filling loop builds `Fill` |
| Trainer.BumpAllSpec | algorithm.py:86 | applying the increments raises each cell by how often its pair occurs, and removes no key |
| Trainer.SentencePairsConsecutive | algorithm.py:81-88 | without an `'EMPTY'` tag, a sentence of m tokens yields its m-1 consecutive tag pairs in order, and `prev` ends at the last tag |
| Trainer.AllPairsCount | algorithm.py:80-88 | without an `'EMPTY'` tag, `total` counts one transition per pair of adjacent tokens |
| Trainer.TransitionsSpec | algorithm.py:75-88 | each transition cell counts the occurrences of its pair; every pair of tags has a cell |
| Trainer.CountTransitions | algorithm.py:75-88 | the transition loops build `Transitions` and count the pairs in `total` |
| Trainer.AddWordSpec | algorithm.py:103-105 | adding a word gives each listed row the word with count 0, and changes no count |
| Trainer.AddWordToRows | algorithm.py:103-105 | the loop over tags builds `AddWord` |
| Trainer.EmitFoldSpec | algorithm.py:100-106 | each emission cell grows by the occurrences of its (word, tag) pair |
| Trainer.EmitFoldRows | algorithm.py:100-105 | a tag row holds a word iff it held it before or the word occurs in training |
| Trainer.EmissionsSpec | algorithm.py:96-106 | emission counts are the pair occurrences; every tag row holds `'UNKNOWN'` and every training word and nothing else; `'UNKNOWN'` counts 0 unless it is a training word |
| Trainer.OccurrencesHasWord | algorithm.py:100-106 | a word with a nonzero count occurs in training |
| Trainer.CountEmissions | algorithm.py:96-107 | the emission loops build `Emissions` of the flattened corpus, with `total` the number of pairs |
| Trainer.Train | algorithm.py:46-106 | the training stage builds `Training`: the four count tables, or the exception of the initial-count loop |
| Trainer.TrainingAdmits | algorithm.py:52-70 | training succeeds iff each sentence has a second token not tagged `'START'`; the initial counts then sum to the number of sentences |
| Trainer.TrainingFirstError | algorithm.py:68-69 | the first sentence that breaks that rule decides the exception |
| Trellis.ReverseAt | algorithm.py:177 | `reverse()` puts position `\|xs\|-1-i` at position i |
| Trellis.StepSpec | algorithm.py:139-159 | a later cell is the first greatest candidate, and its pointer that candidate's tag, when some candidate beats the floor; otherwise the pointer is 0 and the cell reads the unmatched row |
| Trellis.BackAt | algorithm.py:168-173 | the pair the backtrace appends at step i is the word and the tag the pointer chain reaches |
| Trellis.PointersAt | algorithm.py:157-159 | the pointer table holds, in every later column, the tag each cell's scan chose |
| Trellis.PointersAgree | algorithm.py:157-159 | the pointer table follows the scan in every later column |
| Trellis.TracedTable | algorithm.py:168-173 | following the stored pointers yields the same tags as following the recurrence's choices |
| Trellis.DecodedShape | algorithm.py:161-178 | a decoded sentence has one pair per word (one pair when under two words); it opens with the start pair, and word j carries the traced tag |
| Trellis.ReversedTrace | algorithm.py:168-177 | reversing the backtrace with the start pair appended puts the start first and the words in their order |
| Trellis.ReverseSnocAt | algorithm.py:176-177 | reversing after an append puts the appended element first |
| Trellis.DecodedErr | algorithm.py:134-173 | decoding raises iff there are tags and fewer than two words, or no tags and at least two; the exception is IndexError |
| Trellis.ColLower | algorithm.py:132-159 | with scores bounded by b, every cell of column c is at least -Reach(c, b) |
| Trellis.CandLower | algorithm.py:146-151 | with bounded scores, every candidate beats the floor |
| Trellis.CandsAboveFloor | algorithm.py:146-157 | with bounded scores, each cell is its chosen candidate and no candidate exceeds it |
| Trellis.PathScoreSnoc | algorithm.py:141-157 | a path's score is its prefix's plus one transition and one emission |
| Trellis.PathAttains | algorithm.py:132-159 | the traced path to a cell scores exactly that cell |
| Trellis.PathBelow | algorithm.py:132-159 | no path ending in a tag scores more than its cell |
| Trellis.ColOptimal | algorithm.py:132-159 | each cell is the best score of any path ending in its tag, and the traced path attains it |
| Trellis.DecodedOptimal | algorithm.py:132-173 | with bounded scores, the decoded tag sequence has a path score no other tag sequence exceeds |
| Decoder.FirstColumn | algorithm.py:131-138 | the first column holds `initial + emission` of the first word (with the `'UKNOWN'` fallback) and nothing else changes |
| Decoder.BestPrev | algorithm.py:146-154 | the inner scan returns the recurrence's pointer and previous tag |
| Decoder.FillCell | algorithm.py:140-159 | one cell and its pointer are set as the recurrence says; every other cell is unchanged |
| Decoder.FillColumn | algorithm.py:140-159 | a later column and its pointers are filled as the recurrence says; other columns are unchanged |
| Decoder.FinalTag | algorithm.py:161-167 | the last-column scan picks the recurrence's final tag |
| Decoder.Backtrace | algorithm.py:168-173 | the backtrace loop follows the pointer array from the final tag down to the first word |
| Decoder.PointerArray | algorithm.py:130-159 | the filled pointer array holds the pointer table on every column, with zeros in column 0 |
| Decoder.Decode | algorithm.py:121-178 | decoding one test sentence in place gives `Decoded`, including the IndexError cases |
| Decoder.CollectSpec | algorithm.py:119-179 | collecting the results succeeds iff every sentence does, keeping their order; otherwise it raises the exception of the first failing one |
| Decoder.DecodedAllSpec | algorithm.py:119-179 | decoding the test set succeeds iff no sentence has a bad length; it then yields each sentence's `Decoded` in order, and otherwise raises IndexError |
| Decoder.DecodeAll | algorithm.py:119-179 | the loop over test sentences builds `DecodedAll` |
| Decoder.Viterbi | algorithm.py:38-179 | `viterbi` raises the training exception, or returns the decoding of every test sentence with scores that conform to the counts |
| Decoder.KnownWords | algorithm.py:98-145 | under conforming scores, a word is in an emission row iff it is `'UNKNOWN'` or a training word; an unseen word's score reads `'UNKNOWN'` |
| Speech.SplitTokens | speech.py:6 | every piece `split()` returns is non-empty and has no whitespace |
| Speech.SplitCount | speech.py:6 | `split()` returns one piece per start of a token |
| Speech.SplitBlank | speech.py:6 | `split()` returns nothing iff the utterance is empty or all whitespace |
| Speech.JoinSplit | speech.py:6 | rejoining the pieces with single spaces gives the utterance with whitespace runs collapsed and ends trimmed |
| Speech.SplitJoin | speech.py:6 | splitting tokens joined by single spaces returns those tokens |
| Speech.WrapSpec | speech.py:6-9 | a formatted utterance starts with `'START'` and ends with `'END'`; it holds its tokens in between, two more entries than tokens, and is `['START', 'END']` iff the utterance is blank |
| Speech.FormatSpeech | speech.py:3-12 | one formatted utterance per input, in input order |

## Left out

- Smoothing and logarithms: the Laplace epsilon and each `math.log` are floating point (algorithm.py lines 62, 71-72, 90-93, 109-117).
  - The decoder works over integer `Scores` that stand for the smoothed log probabilities.
  - `Decoder.Viterbi` takes those scores as a parameter. It requires only that their shape and emission keys conform to the training counts.
- `summation` (algorithm.py lines 109, 117): it is computed and never used.
- The `seen` and `num_pairs` stores of `viterbi` (lines 46, 48-49, 57, 59): they are written and never read.
- The unused imports (lines 1-8).
- The check `if (k >= len(tags)): break` (line 155): it can never hold inside `enumerate(tags)`, so it changes nothing.
- The backtrace's inner loop over `enumerate(tags)` (lines 169-172) is modelled as reading `tags[k_best]`: it stops at the position `k_best`, which is always below the number of tags.
- The trellis and pointer table are `array2` buffers filled in place.
  - `copy.deepcopy(trellis)` for `pointers` (line 130) is modelled by allocating a second array of the same dimensions in `Decoder.Decode`.
  - `best_path.reverse()` is modelled on values (`Trellis.Reverse`), not as an in-place list update.
- Python integers are unbounded, so no width or wrap-around is modelled. The floor `-(2**63 - 2)` is kept as the constant `Trellis.FLOOR`.
- Trellis.DecodedOptimal: optimality is proved only for scores bounded so that every candidate stays above the floor. This is the `Bounded` and `Roomy` precondition. When a candidate can fall to the floor, the unmatched fallback applies and the decoded path need not be optimal.
- `speech()` in speech.py (lines 13-41): it records audio and calls a speech-recognition service, which is I/O.
- `main.py` and the data loading in the rest of the repository are not part of this model.
- `Speech.IsSpace` uses the characters Python's `str.isspace` accepts. Strings are sequences of `char`, with no encoding and no normalisation.
