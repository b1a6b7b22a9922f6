# Attention-classifier bookkeeping and attention report, in Dafny

`scripts/self_attn.py` trains a text classifier: a bidirectional LSTM encoder
with a learned attention layer. It then writes an HTML report in which every
token's background colour shows the attention it received. This project models
the two parts of that script that are plain sequential logic:

- **The attention report** (`AttnReport`, `attn_report.dfy`, with `HexFormat`,
  `hex_format.dfy`).
  - `highlight(word, attn)` formats the colour `#FFgggg`, where
    `g = int(255*(1-attn))` is written with Python's `%02X`. It then wraps the
    word in a `<span>`.
  - `itos` looks a token id up in the vocabulary list and applies
    `.strip("<").strip(">")`.
  - `mk_html` appends `' ' + highlight(itos(word), attn)` for every pair of
    `zip(sentence, attns)` and ends with `<br><br>`. It is a method with a
    loop, proved equal to the specification function `ReportHtml`.
- **Accuracy bookkeeping** (`Accuracy`, `accuracy.dfy`).
  - A batch is taken after the forward pass: one row of class scores per
    example, and the integer labels.
  - `pred` is the first index of a largest score in each row.
  - `TestModel` is the counting loop of `test_model`, where `correct` is
    never reset.
  - `TrainModel` is the counting loop of `train_model`. It returns the values
    each progress line prints and the count still pending at the end.
    `correct` is reset right after every line, which is printed when
    `idx % log_interval == 0`.

The vocabulary (`TEXT.vocab.itos`) is a `seq<string>` parameter. Attention
weights are `real`s. Python's `int()` is truncation toward zero (`Trunc`).
`highlight` is defined for every weight. The lemmas state what holds for
weights in [0,1], the range softmax produces.

## Model

| member | source | states |
|---|---|---|
| HexFormat.HexDigits | scripts/self_attn.py:213 | the hexadecimal digits `%X` writes for n ≥ 0 are never empty and start with a hex digit (so never with a sign); HexDigitsRoundTrip reads them back |
| HexFormat.Format02X | scripts/self_attn.py:213 | `%02X` of any integer is at least two characters wide and starts with `-` exactly when the value is negative; Format02XRoundTrip gives the digits of a non-negative value |
| HexFormat.HexDigitsRoundTrip | scripts/self_attn.py:213 | the hexadecimal digits of any n ≥ 0 are upper-case hex characters and read back as n |
| HexFormat.HexDigitsLength | scripts/self_attn.py:213 | a value has at least one digit, and at most two exactly when it is below 256 |
| HexFormat.Format02XRoundTrip | scripts/self_attn.py:213 | `%02X` of n ≥ 0 gives hex digits that read back as n; the result has width exactly 2 iff n < 256 |
| HexFormat.Format02XEnds | scripts/self_attn.py:213 | `%02X` gives `00` for 0 and `FF` for 255 |
| AttnReport.Trunc | scripts/self_attn.py:213 | Python's `int()` on a number truncates toward zero: for x ≥ 0 the result is the largest integer not above x, for x < 0 the smallest not below it |
| AttnReport.Channel | scripts/self_attn.py:213 | for a weight in [0,1], `int(255*(1-attn))` lies in 0..255 |
| AttnReport.ChannelMonotone | scripts/self_attn.py:213 | a larger weight never gives a larger green/blue value (any weights) |
| AttnReport.Color | scripts/self_attn.py:213 | for any weight the colour has at least 7 characters and starts with `#FF`; ColorFormat gives its exact shape for weights in [0,1] |
| AttnReport.ColorFormat | scripts/self_attn.py:213 | for a weight in [0,1] the colour is `#` and six upper-case hex digits; red is `FF`, green equals blue, and green reads back as the channel value |
| AttnReport.ColorEnds | scripts/self_attn.py:213 | weight 0 gives `#FFFFFF` (white), weight 1 gives `#FF0000` (red) |
| AttnReport.Highlight | scripts/self_attn.py:212-214 | for any weight the span is at least 47 characters longer than the word, starts with `<` and ends with `>`; HighlightLayout gives the full layout for weights in [0,1] |
| AttnReport.HighlightLayout | scripts/self_attn.py:212-214 | the span is the fixed opening, the 7-character colour, `">`, the word unchanged and `</span>`; `SpanWord` recovers the word |
| AttnReport.StripLeading | scripts/self_attn.py:220 | `lstrip(c)` is no longer than its input and does not start with `c`; StripLeadingSpec characterises it fully |
| AttnReport.StripTrailing | scripts/self_attn.py:220 | `rstrip(c)` is no longer than its input, keeps its first character when not empty, and does not end with `c`; StripTrailingSpec characterises it fully |
| AttnReport.Strip | scripts/self_attn.py:220 | `strip(c)` is no longer than its input and neither starts nor ends with `c`; StripSpec characterises it fully |
| AttnReport.StripLeadingSpec | scripts/self_attn.py:220 | `lstrip(c)` keeps a suffix of its input, removes only `c`s, and leaves no leading `c` |
| AttnReport.StripTrailingSpec | scripts/self_attn.py:220 | `rstrip(c)` keeps a prefix of its input, removes only `c`s, and leaves no trailing `c` |
| AttnReport.StripSpec | scripts/self_attn.py:220 | `strip(c)` keeps a contiguous slice `s[i..j]`, everything outside it is `c`, and neither end of the result is `c` |
| AttnReport.VocabAt | scripts/self_attn.py:219 | `TEXT.vocab.itos[word]` under Python list indexing, negative ids counting from the end, is always an entry of the vocabulary; Itos and ItosUnk state what is shown |
| AttnReport.Itos | scripts/self_attn.py:218-220 | the word `itos` returns is no longer than the vocabulary entry and never starts or ends with `>` (a `<` may remain, as `.strip("<").strip(">")` leaves it); StripSpec characterises each strip |
| AttnReport.ItosUnk | scripts/self_attn.py:218-220 | the vocabulary entry `<unk>` is shown as `unk` |
| AttnReport.Zip | scripts/self_attn.py:222 | `zip` yields as many pairs as the shorter input |
| AttnReport.ZipAt | scripts/self_attn.py:222 | the i-th pair of `zip` is the i-th token id and the i-th weight |
| AttnReport.MkHtml | scripts/self_attn.py:217-227 | the loop with `html +=` returns exactly `ReportHtml`: the pieces of all zipped pairs in order, then `<br><br>` |
| AttnReport.Piece | scripts/self_attn.py:223-226 | what one loop pass appends is a space and then a span tag (`<` … `>`), at least 48 characters longer than the word; RenderIsConcat and ReportShape place the pieces in order |
| AttnReport.RenderIsConcat | scripts/self_attn.py:221-226 | the accumulated string is the concatenation of one `' ' + highlight(itos(w), a)` piece per pair, in pair order |
| AttnReport.ReportShape | scripts/self_attn.py:221-227 | the report is min(len(sentence), len(attns)) spans, the i-th colouring `itos(sentence[i])` by `attns[i]`, followed by `<br><br>` |
| AttnReport.ReportHtml | scripts/self_attn.py:221-227 | the fragment `mk_html` returns always ends with `<br><br>`; ReportShape gives its full content |
| AttnReport.ReportEmpty | scripts/self_attn.py:221-227 | an empty sentence or empty weight list gives exactly `<br><br>` |
| AttnReport.ReportAppend | scripts/self_attn.py:222-226 | adding one token and weight at the end adds its span after all earlier ones (order is preserved) |
| Accuracy.ArgMax | scripts/self_attn.py:143 | the predicted index is in range, holds a largest score, and every earlier score is strictly smaller (first maximum) |
| Accuracy.Hit | scripts/self_attn.py:143-144 | one element of `pred.eq(y...)`: the prediction equals the label, which can only happen when the label is a valid class index of its row; CountHitsIsCard counts the hits |
| Accuracy.CountHits | scripts/self_attn.py:144 | the count of correct predictions among the first m examples is at most m |
| Accuracy.CorrectIn | scripts/self_attn.py:144 | `pred.eq(...).sum()` of a batch is at most the batch size; CorrectInIsCard gives its exact value |
| Accuracy.CountHitsIsCard | scripts/self_attn.py:144 | the count equals the number of distinct examples whose prediction equals the label |
| Accuracy.CountHitsAll | scripts/self_attn.py:144 | the count of the first m examples is m exactly when every one of them is predicted correctly |
| Accuracy.CorrectInIsCard | scripts/self_attn.py:144 | a batch's count is the size of its set of correct examples, at most the batch size, and equal to it iff all are correct |
| Accuracy.SumCorrect | scripts/self_attn.py:144 | the count summed over a run of batches never exceeds the number of examples in them |
| Accuracy.SumCorrectSplit | scripts/self_attn.py:144 | counts over consecutive runs of batches add up |
| Accuracy.CountHitsPrefix | scripts/self_attn.py:144 | appending another batch's examples does not change the count over the first batch |
| Accuracy.CountHitsJoin | scripts/self_attn.py:144 | the count over two joined batches is the sum of their counts |
| Accuracy.SumCorrectFlatten | scripts/self_attn.py:156-162 | summing per-batch counts gives the count over all examples taken as one batch, so batching does not change the total |
| Accuracy.TestModel | scripts/self_attn.py:153-163 | `correct` starts at 0, is never reset, and ends as the total of correct predictions over all batches, at most the number of examples |
| Accuracy.WindowStart | scripts/self_attn.py:145-150 | the first batch the running count covers: none of the indices from it up to the current one logged, and the index before it logged (or it is 0) |
| Accuracy.ResetRule | scripts/self_attn.py:145-150 | the count restarts after batch i exactly when `i % log_interval == 0`, and otherwise keeps accumulating |
| Accuracy.Line | scripts/self_attn.py:145-149 | the count a progress line prints is at most the number of examples in the batches since the previous line |
| Accuracy.TrainLog | scripts/self_attn.py:145-150 | at most one line per batch, each carrying the epoch and `len(train_iter)*batch_size`; TrainLogCount gives the exact number of lines |
| Accuracy.TrainModel | scripts/self_attn.py:131-150 | for batches whose labels `F.nll_loss` accepts (`LossDefined`), the loop prints `TrainLog`: one line per index with `idx % log_interval == 0`, each with epoch, `(idx+1)*len(x)`, `len(train_iter)*batch_size`, the count since the previous line and `log_interval*len(x)`; the count left at the end covers the batches after the last line |
| Accuracy.TrainLogConserves | scripts/self_attn.py:143-150 | the counts printed plus the count still pending equal all correct predictions so far: a reset loses nothing, and nothing is counted twice |
| Accuracy.TrainLogCount | scripts/self_attn.py:145 | the number of printed lines is the number of indices below n with `idx % log_interval == 0` |
| Accuracy.TrainLogEveryBatch | scripts/self_attn.py:131-150 | with the default `log_interval=1`, every batch prints a line, and line i counts exactly batch i's correct predictions |

## Left out

- The encoder, attention and classifier forward passes, the loss, `backward()`,
  the Adam step and the Xavier initialisation (`scripts/self_attn.py:64-128`,
  137-142, 181-195). These are floating-point tensor numerics computed inside
  PyTorch. The model takes each batch's output scores as given.
- Floating-point rounding in `highlight`. The weight is a float32 tensor element
  in the script. Here `255*(1-attn)` is exact real arithmetic, so a product that
  rounds just below an integer in float32 is not modelled.
- NaN scores in `max(1)`. Scores are reals, so every row has a largest entry.
- `ArgMax` breaks ties at the first maximal index. This is a modelling choice.
  The PyTorch this script targets does not promise which tied index `max(1)`
  returns, so on tied scores the real count may differ.
- The loss value in each training progress line, and both float divisions that
  turn counts into accuracies (`scripts/self_attn.py:148`, 163). Only the
  integer numerators and denominators are modelled. The test loop's final
  print is left out with its division.
- The `train()`/`eval()` mode switches and `optimizer.zero_grad()`. They do not
  affect the counts.
- Dataset, field and vocabulary construction, FastText vectors, iterators,
  CUDA placement, seeding and `dill` pickling (`scripts/self_attn.py:20-58`,
  174-178, 203-204). These are I/O and foreign library code. The vocabulary
  list is a parameter.
- The loop that writes the report file (`scripts/self_attn.py:242-251`). It
  is file I/O. As written, it reads `batch.text` and `batch.label`, but the
  fields are named `Text` and `Label` (`scripts/self_attn.py:34`). `mk_html`,
  which that loop calls, is modelled.
- The `lengths` packing branch of the encoder (`scripts/self_attn.py:88-95`).
  It is never taken, because the encoder is always called without lengths, and
  it refers to an undefined name `output`.
- Exceptions that the model turns into preconditions:
  - a token id outside Python's index range for the vocabulary list
    (`InVocab`, which does allow negative indices);
  - a batch whose rows and labels differ in number, or a row with no classes
    (`WellFormed`);
  - `log_interval == 0`, where Python raises `ZeroDivisionError`;
  - in training, a label that is neither a class index of its row nor the
    ignored target -100: `F.nll_loss` (`scripts/self_attn.py:140`) raises
    before the count at line 144 (`LossDefined`, required by `TrainModel`
    only; `test_model` computes no loss, so there such a label is a miss).
- An empty batch on a logging iteration. Python raises `ZeroDivisionError` in
  `correct/float(log_interval * len(x))` (`scripts/self_attn.py:148`).
  `WellFormed` and `TrainModel` accept empty batches, and the model instead
  emits a `LogLine` whose `denom` is 0, because the division is not modelled.
