# LSTM character language model: the training driver

This project models the driver of a character-level language model
(`Program.cs`). The driver:

- builds a vocabulary from a corpus;
- slides a window of one-hot character rows over the corpus, feeding each
  window to a stack of two LSTM layers and a softmax layer;
- scores the stack's output against the window moved on by one character;
- keeps moving averages of loss and perplexity;
- adjusts the learning rate at every epoch boundary;
- generates sample text by weighted random choice from the softmax output.

The model follows the code's own structure:

- **`Errors`** holds `Option`, `Result` and the two failures the code can
  raise: a draw that runs off the end of the distribution (`"Not in
  dictionary!"`), and an index out of range.
- **`Vocabulary`** (pure) defines:
  - `Decode`, the sorted distinct characters of the text;
  - `BuildEncode`, the loop that fills the inverse dictionary;
  - the proofs that the two form a bijection.
- **`Window`** defines:
  - `Row`, a buffer row that is either `null` or a vector;
  - the one-hot rows;
  - the window specification `InputWindow`;
  - the in-place `AdvanceBuffer` on an `array<Row>`;
  - the alignment lemma `Slide`.
- **`Sampler`** defines the prefix-sum specification of a weighted choice,
  and `WeightedChoice` itself as a loop whose random draw is a parameter.
- **`Metrics`** covers the arithmetic of `Loss`:
  - the scanned sums behind cross-entropy and perplexity;
  - the gradient;
  - the 0.99/0.01 moving average;
  - the learning-rate and trend updates.
- **`Training`** defines the class `Program`:
  - its `const` fields are the corpus and the vocabulary;
  - its mutable fields are `loss`, `loss_p`, `perplexity`, `learning_rate`, the
    three layers' rates and the epoch counter;
  - its methods are `FillBuffer`, `Loss`, the training loop of one epoch,
    `Generate` and the learning-rate update.

The layer stack is a collaborator whose code is not part of this model, so
the model makes three assumptions about it. It is deterministic. It clears
its recurrent state when `Forward` is called with `reset` true. Its weights
change only through `Backward`, whose gradients are fixed by the windows fed.
Under these assumptions, within one epoch its output is a function of the
windows fed since the last reset. That function is the parameter
`stack: Stack`, and sampling gets one of its own. `Math.Log` and `Math.Pow`
are the function parameters `ln` and `pow`. `rnd.NextDouble()` becomes a
sequence of draws, one list per sample. All arithmetic is on exact reals.

The model follows the code as written:

- The cursor advances by `size_buffer - 1` characters per step
  (`Program.cs:75`).
- Row 0 of every buffer and of the gradient is `null` (`Program.cs:144-145`,
  `117`).
- The field `loss` starts at 0.0, C#'s default for a field that is never
  assigned before use. `loss_p` starts at `log V` and `perplexity` at `V`
  (`Program.cs:16`, `43-44`).
- A draw that exceeds the total mass makes `WeightedChoice` throw
  (`Program.cs:193`). The model returns `Fail(NotInDictionary)`, and that
  failure ends the run before the learning-rate update.

## Model

| member | source | states |
|---|---|---|
| Vocabulary.Decode | Program.cs:40 | the vocabulary is strictly increasing, so each character appears once, and holds exactly the characters that occur in the text |
| Vocabulary.DecodeIsUnique | Program.cs:40 | any strictly increasing list of exactly the text's characters equals `Decode`, so `Decode` is the one sorted duplicate-free list |
| Vocabulary.VocabularySize | Program.cs:40-42 | `size_vocab` equals the number of distinct characters in the text |
| Vocabulary.BuildEncode | Program.cs:41-47 | every `Decode[i]` is a key that maps to `i`, and every key `c` maps to an index below the vocabulary size where `Decode` holds `c` |
| Vocabulary.RoundTrip | Program.cs:40-47 | every character of the text encodes to a valid index that decodes back to it, and every index decodes to a character that encodes back to it |
| Window.OneHot | Program.cs:147-148 | the row has `size_vocab` entries, with 1 at the character's code and 0 everywhere else |
| Window.AdvanceBuffer | Program.cs:156-161 | in place, with the array's length kept: row 0 and rows past the window unchanged, row `b` takes the old row `b+1` for `b` in 1..size_buffer-2, and the last row becomes `vx` |
| Window.Slide | Program.cs:67-77 | filling at `pos` and then advancing by the code of `text[pos + size_buffer - 1]` gives the window at `pos + 1`, so target row `t` is the character after input row `t` |
| Sampler.WeightedChoice | Program.cs:185-194 | a returned index is the first whose running mass reaches the draw; the call fails with `NotInDictionary` exactly when no running mass reaches it |
| Sampler.ExhaustedIffOverTotal | Program.cs:188-193 | with non-negative weights, the scan runs off the end exactly when the draw exceeds the total mass |
| Sampler.ChoiceExists | Program.cs:185-194 | with non-negative weights and a draw no greater than the total mass, an index is always chosen, so the throw cannot happen |
| Metrics.Smooth | Program.cs:130-133 | the new average lies between the old average and the sample, and differs from the sample unless the old average already equals it |
| Metrics.SmoothAllBounded | Program.cs:130-133 | over any number of windows the average stays in any interval that holds its start and every sample |
| Metrics.SmoothConstant | Program.cs:130-133 | fed the same sample `k` times, the average's distance to it shrinks by the factor 0.99 per window |
| Metrics.NextLearningRate | Program.cs:98-99 | the rate rises by 1% when `loss_p - loss > 0` and falls by 2% otherwise; a positive rate stays positive and grows exactly when the loss is below the trend |
| Metrics.NextTrend | Program.cs:103 | `loss_p` moves a fifth of the way to `loss`: it stays between its old value and `loss` and closes 20% of the gap |
| Metrics.ScoreRow | Program.cs:120-126 | one row of the scan: the row's gradient is `probs[t] - targets[t]`, and `ls` and `pp` advance to their values after row `t` |
| Metrics.OneHotRowLoss | Program.cs:123 | against a one-hot target row only the true class adds to `ls`, and what it adds is `-ln(p)` of that class |
| Metrics.OneHotRowInverse | Program.cs:124 | against a one-hot target row, `pp` is multiplied once, by `1/p` of the true class |
| Metrics.CrossEntropyNonNegative | Program.cs:118-129 | with one-hot targets, probabilities in (0, 1] and a logarithm not positive there, the window's `ls` is never negative |
| Metrics.GradientOfOneHot | Program.cs:120-125 | against a one-hot target, the gradient is not positive at the true class and not negative elsewhere, and its entries sum to the sum of the probabilities minus 1 |
| Training.WindowInText | Program.cs:64-76 | every window the loop trains on fits inside the text, and so does the character read after it (`text[pos]` after `pos += size_buffer - 1`) |
| Training.EpochCoverage | Program.cs:64 | the loop stops only when fewer than `size_buffer + 1` characters remain from the cursor |
| Training.CountFrom | Program.cs:63-75 | if windows `0..k-1` fit and window `k` does not, the loop trains on exactly `k - j` windows when started from window `j` |
| Training.Program.constructor | Program.cs:37-47 | the vocabulary is `Decode` of the corpus with its inverse dictionary; `loss` = 0, `loss_p` = log V, `perplexity` = V, and the learning rate is 1e-3 on all three layers |
| Training.Program.FillBuffer | Program.cs:141-151 | a fresh `size_buffer`-row array: row 0 `null`, and row `p` one-hot at the code of `text[offset + p - 1]` |
| Training.Program.Loss | Program.cs:113-136 | `grads[0]` is `null` and `grads[t] = probs[t] - targets[t]` for the other rows; `loss` and `perplexity` each take one smoothing step towards the window's cross-entropy and perplexity |
| Training.Program.Forward | Program.cs:67-77 | steps 0..k fed the windows at cursors `0, 23, ..., 23k`, resetting at cursor 0; the targets are the window at cursor `23k + 1`, scorable against the output |
| Training.Program.NextTargets | Program.cs:74-77 | advancing step `k`'s window by the one-hot code of `text[pos]`, after `pos += size_buffer - 1`, gives the window one character on: the step's targets |
| Training.Program.TrainStep | Program.cs:64-84 | one step takes the state after `k` steps to the state after `k + 1`: one more window fed, and each average smoothed once more by that window's score |
| Training.Program.TrainEpoch | Program.cs:63-84 | an epoch trains on exactly `WindowCount(\|text\|, 0)` windows and leaves `loss` and `perplexity` as their old values smoothed by each window's cross-entropy and perplexity, in order |
| Training.Program.FeedStep | Program.cs:171-172 | feeding the window at the end of the output keeps every earlier choice the choice from its own window |
| Training.Program.ChooseStep | Program.cs:173-177 | a chosen index is a valid `Decode` index, and writing `Decode[ix]` keeps every character of the output the choice from its own window |
| Training.Program.SlideOutput | Program.cs:174-177 | advancing the window at the end of the output by the one-hot code of `ix` gives the window at the end of the output with `Decode[ix]` appended |
| Training.Program.Emit | Program.cs:174-177 | the output grows by `Decode[ix]`, and the buffer becomes the window at its new end |
| Training.Program.GenerateStep | Program.cs:170-177 | one generation step writes one character chosen from the last output row by its draw and slides the buffer on by it, or fails leaving the output as it was |
| Training.Program.Generate | Program.cs:166-180 | it writes exactly `sample_length` characters, all from `Decode`, each the weighted choice by its draw from the window ending just before it; otherwise it fails at the first exhausted draw, or with `IndexOutOfRange` when the text is shorter than one window |
| Training.Program.AdjustLearningRate | Program.cs:97-103 | the new rate follows the two-branch rule, decided on the old `loss_p` and then copied to all three layers, and then `loss_p` moves towards `loss` |
| Training.Program.SampleAll | Program.cs:88-92 | sample `g` is what `Generate` writes with the draws `draws[g]`: each character the weighted choice from its own window. All `sample_count` samples have `sample_length` characters unless one fails. A failure ends the phase at the first failing sample, and is either an exhausted draw of that sample's last window or `IndexOutOfRange` for a text shorter than the prompt |
| Training.Program.RunEpoch | Program.cs:61-106 | one turn of the outer loop: the epoch's training averages, then the samples with the same guarantees as `SampleAll`. Then the learning-rate update and `epoch++`, which happen exactly when no sample failed, that is unless a draw was exhausted or the text is shorter than the prompt. The layers' rates keep agreeing |

## Left out

- The internals of `LSTM`, `SoftMax` and `Layer` (`Forward`, `Backward`,
  `Count`, and the `LearningRate` setter beyond recording its value) are
  not part of this model. The stack is the function parameter described
  above, and `Backward` is not modelled.
- Reading `aesop.txt` is not modelled; the corpus is a constructor
  parameter. `Logger` output, timestamps, separator lines and `Flush` are
  not modelled either; generated characters are returned instead of
  written.
- `Random.NextDouble` is not modelled; its values are a parameter.
- `Math.Log` and `Math.Pow` are parameters, and `Math.Log(size_vocab)` is
  passed to the constructor. IEEE doubles are modelled as exact reals, so
  rounding, infinities and NaN are not captured.
- Training.Program.Loss: requires that the probability of every true class
  is nonzero, because `1 / 0` is infinity in doubles and has no exact-real
  value.
- The outer `while (true)` is not modelled as a loop; `RunEpoch` models one
  turn of it. An exception ends the program in the code; the model returns
  the failure instead.
- Training.Program.Generate, RunEpoch: the stack's output rows are only
  assumed to have the right shape (and positive entries while training),
  not to sum to 1. So `Sampler.ChoiceExists` states separately when the
  throw cannot happen.
- Rows are values, so the model does not capture that `AdvanceBuffer`
  shares row objects between slots. The code never writes into a row after
  building it, so sharing is not observable.
- Training.Program.Forward, GenerateStep: the stack is handed a value
  snapshot of the buffer. In the code, `layer1.Forward` receives the array
  itself (`Program.cs:71`, `172`), and `AdvanceBuffer` then shifts that
  array in place (`Program.cs:77`, `176`) before `Backward` runs
  (`Program.cs:83`). Any use the layers make of the array after `Forward`
  returns is not captured.
- The corpus is assumed to hold no characters outside the Basic
  Multilingual Plane. A Dafny `char` is a Unicode scalar value, while a C#
  `char` is a UTF-16 code unit. For such a character, C#'s `Decode` holds its
  two surrogate halves and the model's holds the one character.
