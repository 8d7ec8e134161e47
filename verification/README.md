# AnoMark Markov model in Dafny

AnoMark detects anomalous command lines and other strings with a character-level Markov
chain of fixed `order`. Training slides a window of `order` characters over each string
and counts, for every context, how often each next letter follows it. Normalisation turns
the counts into per-context probabilities and sets the prior to 0.01 times the smallest
probability. Scoring a string takes the mean of the logs of its transition
probabilities, using the prior for transitions never seen. Simulation walks the chain to
generate text. The model handler pads values with `~` before training and scoring,
trains from a table of rows (with an optional count column) or from one text, and
renders a string with its low-scoring characters coloured in ANSI red.

The project has six modules, one per file:

- `Chain` (chain.dfy): the count table and the alphabet as values. It covers what one
  `train` call adds, window by window, and the facts about the result: counts, keys,
  well-formedness, total weight, alphabet growth and additivity.
- `Normalize` (normalize.dfy): `normalize_transition_matrix`, the minimum probability,
  the prior and `sorted` on the alphabet.
- `Scoring` (scoring.dfy): the score `log_likelihood` computes, its bounds, and the
  `"aaaa"` versus `"baba"` example.
- `Sampling` (sampling.dfy): `generate_letter`'s cumulative-subtraction draw, and walks
  of the chain as a predicate.
- `Model` (model.dfy): the `MarkovModel` class. Its fields are updated in place, and its
  invariant ties the fields to the value-level functions above. It also holds the loops
  of `log_likelihood`, `generate_letter` and `simulate`.
- `Handler` (handler.dfy): `train_from_df`, `train_from_txt`, `apply_likelihood` and
  `colored_results`.

Counts are integers and probabilities are reals. Inner dictionaries are sequences of
(letter, value) pairs in insertion order, because `generate_letter` depends on that
order. `log` is a parameter of type `real -> real`; its properties (monotone, strictly
increasing) are assumptions of the lemmas that need them. The random draws are
parameters too: `random()` is a real `u` and `choice` is an index `pick`.

Nothing in the code invalidates the normalised view. Once `check_if_trained`
(scripts/model.py:113-120) has built it, later `train` calls leave it untouched, and
scores keep using it. `Model.MarkovModel.CheckIfTrained` states exactly that.

## Model

| member | source | states |
|---|---|---|
| Chain.AddWeightLookup | scripts/model.py:36 | adding `count` to a row raises the weight of that letter by `count` (a missing letter counts as 0) and leaves every other letter's weight unchanged |
| Chain.AddWeightLetters | scripts/model.py:35-36 | a row's letters stay in insertion order: a new letter is appended at the end, and a known letter leaves the order as it was |
| Chain.AddWeightTotal | scripts/model.py:36 | adding `count` to a row raises its total by `count` |
| Chain.AddWeightKeepsShape | scripts/model.py:35-36 | a row with distinct letters and positive weights keeps both after a positive addition, and is non-empty with a positive total |
| Chain.PositiveRowTotal | scripts/model.py:11 | a row of positive counts has a total of at least 0, and above 0 when it is not empty, so normalising it never divides by zero |
| Chain.RecordCount | scripts/model.py:35-36 | recording one window changes only the count of that (context, letter) pair, by `count` |
| Chain.RecordOccurs | scripts/model.py:37-38 | after recording a window, a letter occurs as a next letter exactly when it occurred before or is the window's letter |
| Chain.RecordTotalWeight | scripts/model.py:36 | recording one window raises the table's total weight by `count` |
| Chain.TrainPrefixCount | scripts/model.py:31-36 | after the first n windows, each (context, letter) count equals the old count plus `count` times the number of those windows with that context and letter |
| Chain.TrainedCount | scripts/model.py:31-36 | after `train`, each count equals the old count plus `count` times the number of positions i < len(s) - order with s[i:i+order] == ctx and s[i+order] == c |
| Chain.TrainPrefixKeys | scripts/model.py:32-35 | the contexts after training are exactly the old contexts plus the windows s[i:i+order] |
| Chain.TrainedWellFormed | scripts/model.py:31-36 | training with a positive count keeps every context at exactly `order` letters, with a non-empty row of distinct letters and positive weights |
| Chain.TrainedTotalWeight | scripts/model.py:31-36 | training adds `count` times max(0, len(s) - order) to the total weight, so a string no longer than `order` adds nothing |
| Chain.TrainPrefixOccurs | scripts/model.py:33-38 | after training, a letter occurs as a next letter iff it did before or it is s[i+order] for some window |
| Chain.ExtendAlphabetGrows | scripts/model.py:37-38 | the alphabet only grows (the old alphabet is a prefix), keeps no duplicates, and holds exactly the old letters plus the next letters of the string |
| Chain.TrainTwiceAdds | scripts/model.py:36 | training on the same string with counts a then b gives the same keys and counts as training once with a + b |
| Chain.TrainRepeatedIsWeighted | scripts/model.py:36 | training k times with count 1 gives the same keys and counts as training once with count k |
| Normalize.NormalizeTransitionMatrix | scripts/model.py:5-13 | the normalised table has exactly the same contexts, and each context keeps the same next letters in the same order |
| Normalize.NormalizedRowsAreDistributions | scripts/model.py:9-13 | each normalised entry is count / total of its context, each row is a distribution (entries in (0,1], sum 1, distinct letters), and each context has `order` letters |
| Normalize.MinExists | scripts/model.py:44-45 | a non-empty table with non-empty rows has an entry that no other entry is below |
| Normalize.MinEntryUnique | scripts/model.py:44-45 | any such minimum entry is the minimum probability the prior is computed from |
| Normalize.PriorBounds | scripts/model.py:40-45 | for a trained table, 0 < prior <= 0.01 and every stored probability is at least 100 times the prior |
| Normalize.SortCharsSpec | scripts/model.py:42 | `sorted(alphabet)` is ordered, is a permutation of the alphabet, and keeps it free of duplicates |
| Normalize.InsertSpec | scripts/model.py:42 | inserting a letter into an ordered list keeps it ordered and adds exactly that letter |
| Normalize.ProbSumNormalizeRow | scripts/model.py:11-12 | a row's probabilities sum to its total divided by the divisor |
| Scoring.ProbOfMeaning | scripts/model.py:104-107 | a transition's probability is the normalised entry when the context and letter are known, and the prior otherwise; for a normalised model it lies in [prior, 1] |
| Scoring.LogLikelihoodBounds | scripts/model.py:101-111 | for a monotone log, the score lies between log(prior) and log(1) |
| Scoring.MeanWithin | scripts/model.py:108-111 | the mean of terms between lo and hi (or the empty-case value, when there are no terms) lies between lo and hi |
| Scoring.WindowScore | scripts/model.py:101-111 | the score of an (order+1)-letter window is the log of the probability of its single transition |
| Scoring.NormalizedTableIsView | scripts/model.py:40-45 | the normalisation of a trained table with its computed prior has a positive prior and every entry between the prior and 1 |
| Scoring.AaaaScoresAboveBaba | scripts/model.py:87-111 | a model of order 1 trained on "aaaa" scores "aaaa" strictly above "baba" for a strictly increasing log |
| Sampling.SampleFirstCrossing | scripts/model.py:77-83 | cumulative subtraction returns the first letter k whose running sum reaches the draw |
| Sampling.SampleNone | scripts/model.py:77-85 | the draw finds no letter (None) iff every running sum of the row stays below the draw |
| Sampling.SampleFromDistribution | scripts/model.py:77-83 | on a distribution, with a draw at most 1, a letter of the row is always returned |
| Sampling.NextLetterDefined | scripts/model.py:73-85 | with a non-empty alphabet, distributions as rows and a draw at most 1, a letter is drawn: from the row of a known context, from the alphabet otherwise |
| Sampling.WalkDeterministic | scripts/model.py:61-71 | two walks from the same seed, with the same draws and the same length, are equal |
| Sampling.WalkStaysInAlphabet | scripts/model.py:61-71 | every letter a walk appends is in the alphabet when the view's letters are |
| Sampling.WalkExtend | scripts/model.py:64-70 | appending the letter drawn after the last `order` letters extends a walk |
| Chain.AddWeight | scripts/model.py:35-36 | definition: `row.get(c, 0) + count` stored back into the row, in place when `c` has an entry, appended at the end otherwise (its properties: AddWeightLookup, AddWeightLetters, AddWeightTotal) |
| Chain.Record | scripts/model.py:35-36 | definition: one window recorded, the context's row (empty when unknown) with `count` added for the next letter (its properties: RecordCount, RecordOccurs, RecordTotalWeight) |
| Chain.TrainPrefix | scripts/model.py:31-36 | definition: the table after the loop's first n iterations, window i being s[i:i+order] followed by s[i+order] (its properties: TrainPrefixCount, TrainPrefixHas) |
| Chain.Trained | scripts/model.py:31-36 | definition: the table after all max(0, len(s) - order) iterations of `train`'s loop (its properties: TrainedCount, TrainedWellFormed, TrainedTotalWeight) |
| Chain.ExtendAlphabet | scripts/model.py:37-38 | definition: the alphabet after `train`, each unseen next letter appended once in the order met (its properties: ExtendAlphabetGrows) |
| Normalize.NormalizeRow | scripts/model.py:12 | definition: each count of a row divided by the total, letters and order unchanged (its properties: ProbSumNormalizeRow, NormalizeRowIsDistribution) |
| Normalize.SortChars | scripts/model.py:42 | `sorted(alphabet)` by insertion sort; same length (ordering, permutation and no duplicates: SortCharsSpec) |
| Normalize.MinProb | scripts/model.py:44 | the minimum of all probabilities of a non-empty table with non-empty rows: stored somewhere in the table and at most every stored probability |
| Normalize.PriorOf | scripts/model.py:45 | definition: 0.01 times that minimum (its properties: PriorBounds) |
| Scoring.ProbOf | scripts/model.py:104-105 | definition: `normed_chain.get(ngram, {}).get(next_letter, prior)` (its properties: ProbOfMeaning) |
| Scoring.LogLikelihoodOf | scripts/model.py:101-111 | definition: the mean of the logs of the transition probabilities, or log(prior) when there are none (its properties: LogLikelihoodBounds, WindowScore) |
| Sampling.Sample | scripts/model.py:79-83 | definition: subtract each probability from r in the row's order, return the first key where r <= 0, None when none is reached (its properties: SampleFirstCrossing, SampleNone, SampleFromDistribution) |
| Sampling.NextLetter | scripts/model.py:77-85 | definition: Sample on the row of a known context, `choice(alphabet)` as the pick-th letter otherwise (its properties: NextLetterDefined) |
| Sampling.Suffix | scripts/model.py:69 | definition: `s[-order:]`, the last `order` letters, or all of s when it is shorter or when order is 0 (since `s[-0:]` is the whole string) |
| Handler.TrainPad | anomark/model_handler.py:151 | definition: `'~'*order + x + '~'*order` (its properties: TrainPadTransitions) |
| Handler.ScorePad | anomark/model_handler.py:85 | definition: `'~'*order + x` (its properties: ScorePadTransitions, ScorePadTerms) |
| Handler.RemoveAll | anomark/model_handler.py:77 | definition: `str.replace(pat, "")`, scanning left to right and removing non-overlapping occurrences (its properties: PassChars, PassToken, DropPat, MergeRuns) |
| Handler.Flags | anomark/model_handler.py:71-73 | definition: for each character k, `log_likelihood(st[k-order:k+1]) < threshold` on the padded string (its properties: FlagMeaning, ScoreBelow) |
| Model.MarkovModel.ComputeView | scripts/model.py:41-45 | the view becomes the normalisation of the counts and the alphabet the sorted alphabet; with no counts it fails with NoProbabilities and keeps the prior; otherwise the prior is 0.01 times the minimum probability |
| Model.FreshModel | scripts/model.py:18-23 | a fresh model satisfies the model invariant |
| Model.TrainKeepsInvariant | scripts/model.py:25-38 | training with a positive count keeps the invariant and leaves the view, prior and snapshot unchanged |
| Model.NormalizeKeepsInvariant | scripts/model.py:40-45 | normalising a model with counts gives the view of the current counts, its prior and the sorted alphabet, and keeps the invariant |
| Model.NoCountsNoView | scripts/model.py:113-120 | a model without counts has no view and has the default prior |
| Model.NormalizedModel | scripts/model.py:40-45 | a normalised model's rows are distributions over contexts of `order` letters, with every letter in the alphabet and a non-empty alphabet |
| Model.MinProbability | scripts/model.py:44-45 | the loop computes the minimum over every probability of the table |
| Model.MarkovModel.constructor | scripts/model.py:18-23 | the given order, empty counts and view, empty alphabet and prior 0.001 |
| Model.MarkovModel.Train | scripts/model.py:25-38 | counts become the trained table, the alphabet becomes the extended alphabet, and the view and prior are untouched |
| Model.MarkovModel.RecordWindows | scripts/model.py:31-38 | the window loop leaves exactly the trained table and the extended alphabet |
| Model.MarkovModel.NormalizeModelAndComputePrior | scripts/model.py:40-45 | view = normalisation of the counts, alphabet = sorted alphabet, prior = 0.01 * min; it fails (min of nothing) exactly when there are no counts |
| Model.MarkovModel.CheckIfTrained | scripts/model.py:113-120 | an existing view is kept even after more training; counts without a view are normalised; no counts and no view fails with Untrained and changes nothing |
| Model.MarkovModel.LogLikelihood | scripts/model.py:87-111 | fails exactly on an untrained model; otherwise the mean of the log transition probabilities (log(prior) with no transition), between log(prior) and log(1) for a monotone log |
| Model.AverageLogLikelihood | scripts/model.py:101-111 | the loop's result is the mean of the logs of the max(0, len - order) transition probabilities, or log(prior) with none |
| Model.MarkovModel.GenerateLetter | scripts/model.py:73-85 | the letter drawn after the context; with a draw at most 1, always a letter of the alphabet |
| Model.DrawLetter | scripts/model.py:73-85 | the subtraction loop returns the first letter that brings the draw to 0 or below, None if none does, and alphabet[pick] for an unknown context |
| Model.MarkovModel.Simulate | scripts/model.py:47-71 | the result has length max(length, len(seed)) and is the walk of the model from the seed (a known context when none is given); it fails only on an untrained model or a draw above 1 |
| Model.RandomWalk | scripts/model.py:61-71 | the loop returns the walk with `steps` more letters, or None exactly when a shorter walk reaches a draw that yields no letter |
| Handler.TrainPadTransitions | anomark/model_handler.py:151 | a value padded on both sides gives len(x) + order transitions: the first from the all-tilde context, the first len(x) leading to x's letters, and the rest leading to '~' |
| Handler.ScorePadTransitions | anomark/model_handler.py:85 | a value padded on the left gives exactly len(x) transitions, each the same (context, letter) pair as the matching training transition |
| Handler.RowCounts | anomark/model_handler.py:153-155 | without a count column every row has count 1; with one, its values are used |
| Handler.RepeatedRowsAdd | anomark/model_handler.py:163 | two rows with the same value and counts a and b train like one row with count a + b |
| Handler.TrainRowsTotalWeight | anomark/model_handler.py:151-163 | training on the rows adds the sum of count * (len(value) + order) to the total weight |
| Handler.TrainFromDf | anomark/model_handler.py:148-170 | a given model is reused, otherwise a fresh one of `model_order`; its counts and alphabet are those of training on every padded row with its count; the view and prior are unchanged (0.001 for a fresh model) |
| Handler.TrainEach | anomark/model_handler.py:163 | the row loop trains each padded value with its count, in order, and keeps the invariant |
| Handler.TrainFromTxt | anomark/model_handler.py:173-187 | a given model is reused, otherwise a fresh one; its counts are those of training once on the unpadded text with count 1 |
| Handler.ApplyLikelihood | anomark/model_handler.py:84-86 | the score of the value padded on the left with `order` tildes; it fails only on an untrained model, changing nothing; an existing view (even a stale one) is used and left unchanged; a model without a view is first given the normalisation of its counts, the sorted alphabet and the computed prior |
| Handler.ScorePadTerms | anomark/model_handler.py:84-86 | a left-padded value's score averages one term per letter, each using the context training recorded that letter under |
| Handler.FlagMeaning | anomark/model_handler.py:71-73 | a character is highlighted iff the log of its transition probability, after the `order` characters before it, is below the threshold |
| Handler.RedDistinct | anomark/model_handler.py:69-70 | the ANSI begin and end tokens both start with ESC, contain no other ESC, and neither can be mistaken for the other |
| Handler.Highlight | anomark/model_handler.py:71-76 | the loop's string is the concatenation, per character, of the character, wrapped in the tokens when it is highlighted |
| Handler.ScoreBelow | anomark/model_handler.py:72-73 | scoring the window ending at position k and comparing the score with the threshold gives that character's flag |
| Handler.MergeRuns | anomark/model_handler.py:77 | removing every end+begin pair from the loop's output leaves each run of highlighted characters with one begin token before it and one end token after it |
| Handler.RenderStrips | anomark/model_handler.py:66-78 | removing the tokens from the rendering gives back the original string |
| Handler.AllHighlighted | anomark/model_handler.py:71-77 | when every character is highlighted, the output is begin + st + end |
| Handler.NoneHighlighted | anomark/model_handler.py:71-77 | when no character is highlighted, the output is st itself |
| Handler.Colour | anomark/model_handler.py:67-78 | the output is the loop's string with end+begin pairs removed; for a string without ESC it is the run-merged rendering, and stripping the tokens gives back the string |
| Handler.ColoredResults | anomark/model_handler.py:66-78 | fails only when a non-empty string is scored by an untrained model, changing nothing; the empty string is returned as itself without touching the model; otherwise an existing view is used and left unchanged, a model without a view is first normalised (view, sorted alphabet, prior), and the output is as in Colour |

## Left out

- Pickle loading and saving, CSV/TXT reading, `save_model` and `save_execution_results`: file I/O.
- The timing prints and the tqdm progress bars of the handler, and `display_top`: terminal output.
- The pandas group-by, aggregation and sort in `execute_on_df`: only its `apply_likelihood` is modelled.
- `compute_threshold`, the regex placeholder substitution in the data handlers, `process_dataframe`, the CLI scripts, the Splunk command and `setup.py`: these are not part of this model.
- `math.log` and floating point: `log` is a parameter of type `real -> real` and probabilities are exact reals, so rounding in `count / float(total)` and in the mean is not modelled.
- `random()` and `choice()`: the draws are parameters. `simulate` without a start string picks its starting context with a non-deterministic choice instead of `choice(list(keys))`.
- Model.MarkovModel.Train: requires `count > 0`. Python accepts any count, but a zero or negative count can make a row total zero, and then normalisation divides by zero.
- Handler.TrainFromDf: requires every value of the count column to be positive, for the same reason as `Train`.
- Handler.TrainEach: requires positive weights, for the same reason as `Train`.
- Handler.ColoredResults: proves the run merging and the stripping round trip only for strings without the ESC character. It also checks training once instead of once per window, which gives the same result because the first check already normalises.
- Handler.Colour: the same ESC proviso as `ColoredResults`.
- Model.MarkovModel.NormalizeModelAndComputePrior: on a model with no counts, Python raises from `min([])`. The model returns `Failed(NoProbabilities)`, with the view and the alphabet already replaced as in Python.
- Model.MarkovModel.Simulate: Python raises a TypeError when `generate_letter` returns None. The model returns `Err(NoLetterDrawn)`.
- Handler.TrainFromDf: `train_from_df` overwrites the caller's DataFrame column with the padded values and adds a `count_col` column of ones when no count column is given. The model takes the values as an immutable sequence, so the mutation of the caller's DataFrame is not modelled.
- `train_from_df` pads with `model_order` even when the model passed in has a different order; the model does the same (`padOrder` versus the model's own `order`).
- A model's invalidation of the normalised view after retraining is not modelled, because the code has none (see above).
