# UniTable table-recognition core, modelled in Dafny

The UniTable module of open-parse turns a cropped table image into HTML. It
runs three encoder-decoder transformers: one for the structure tokens, one
for the cell boxes and one for the cell text. Almost all of it is neural
network and tensor plumbing. Three pieces of `core.py` are self-contained
logic. This project models those three and proves their properties:

- **Box rescaling** (`_rescale_bbox`), module `BBoxRescale` in `rescale.dfy`.
  Predicted boxes live in the model's 448 x 448 input space. Each box is
  mapped to the image's pixel space by scaling x by `tgt.width / src.width`
  and y by `tgt.height / src.height`, then rounding. The method keeps the
  source's loop that appends one scaled box per input box. A zero source
  dimension gives the `ZeroDivisionError` that Python raises.
- **The greedy decoding loop** (`_autoregressive_decode`), module `Decoder`
  in `decode.dfy`. Every row of the batch starts as the prefix. On each of
  at most `max_decode_len` iterations, the loop first checks whether every
  row holds `eos_id`. If so it stops; otherwise it appends one id to every
  row. The encoder, decoder, generator, token mask and greedy arg-max
  together form one abstract oracle `next`. Given the current batch and a
  row index, it returns that row's next id. So every property holds
  whatever the weights are.
- **Cell-text numeric repair** (`re.sub(r"(\d).\s+(\d)", r"\1.\2", s)` in
  `predict_cells`), module `CellRepair` in `cell_repair.dfy`. This is a pure
  recursive scan with Python's leftmost, non-overlapping semantics. `\d` is
  an ASCII digit. `\s` is one of space, `\t`, `\n`, `\r`, `\v`, `\f`. `.` is
  any character except `\n`.

`wrappers.dfy` holds the `Option` type, which stands for Python's
`Optional[...]` and for "no match".

Rounding. Python computes `round(x_min * (tgt[0] / src[0]))` in floating
point. The model uses the exact rational `x_min * tgt / src` instead. It
rounds to the nearest integer and sends exact halves to the even neighbour,
as Python's `round` does (`RoundHalfEven`). The float result can differ
from this only when the float product lands on the other side of a half.

Greedy `\s+`. A digit is never whitespace, so `\s+` followed by `\d` can
only match the whole whitespace run. The match starting at a position is
therefore unique, and `MatchEnd` returns it (`MatchEndComplete`).

## Model

| member | source | states |
|---|---|---|
| `BBoxRescale.RescaleBBox` | src/openparse/tables/unitable/core.py:53-71 | Returns the division error exactly when a source dimension is 0. Otherwise it returns exactly one box per input box, in input order. Box i is input box i with x scaled by tgt.width/src.width and y by tgt.height/src.height, each coordinate rounded to the nearest integer. When src == tgt the list comes back unchanged. |
| `BBoxRescale.RoundHalfEven` | src/openparse/tables/unitable/core.py:64-67 | `round` of the rational n/d, for any non-zero d of either sign: the result is within 1/2 of n/d, and exactly 1/2 away only when it is even. |
| `BBoxRescale.RoundedQuotientUnique` | src/openparse/tables/unitable/core.py:64-67 | At most one integer meets that rounding rule, so a rounded coordinate is fully determined. |
| `BBoxRescale.RoundExactQuotient` | src/openparse/tables/unitable/core.py:64-67 | An exact quotient k*d/d rounds to k. |
| `BBoxRescale.RoundHalfEvenMonotone` | src/openparse/tables/unitable/core.py:64-67 | For a positive divisor, rounding n/d never decreases as n grows. |
| `BBoxRescale.ScaleCoord` | src/openparse/tables/unitable/core.py:64-67 | One coordinate c times the ratio t/s, rounded: the result is the rounding of the rational c*t/s by the rule above. |
| `BBoxRescale.ScaleBox` | src/openparse/tables/unitable/core.py:62-68 | The scaled box's x_min and x_max are the rounded x_min*tgt.width/src.width and x_max*tgt.width/src.width. Its y_min and y_max use the height ratio. |
| `BBoxRescale.ScaledBoxUnique` | src/openparse/tables/unitable/core.py:62-68 | Only one box is the per-axis rounded scaling of a given box. |
| `BBoxRescale.ScaleBoxIdentity` | src/openparse/tables/unitable/core.py:57-68 | With src == tgt both ratios are 1 and every box is returned unchanged. |
| `BBoxRescale.ScaleCoordRoundTrip` | src/openparse/tables/unitable/core.py:57-68 | Scaling a coordinate s -> t and back t -> s moves it by at most (t+s)/(2t). When t >= s it comes back exactly. |
| `BBoxRescale.ScaleBoxRoundTrip` | src/openparse/tables/unitable/core.py:57-68 | For any positive sizes src and tgt (448x448 and the image size in the source), rescaling a box src -> tgt -> src recovers each coordinate within the bound above, per axis. It recovers the box exactly if tgt is at least src on both axes. |
| `BBoxRescale.ScaleBoxKeepsOrder` | src/openparse/tables/unitable/core.py:57-68 | With a positive source size and a non-negative target size, x_min <= x_max and y_min <= y_max still hold after scaling. |
| `Decoder.AutoregressiveDecode` | src/openparse/tables/unitable/core.py:74-110 | Returns exactly the loop's run from `batch` copies of the prefix. There is one row per batch element, each starting with the prefix. All rows share one length L with len(prefix) <= L <= len(prefix) + max_decode_len. If L is below the cap, every row contains eos. At every earlier length some row lacked eos. Every id after the prefix is the oracle's choice for that row, given the batch at that length. |
| `Decoder.Steps` | src/openparse/tables/unitable/core.py:90 | The number of iterations of `range(max_decode_len)`, 0 for a negative bound. A definition with no contract of its own; `AutoregressiveDecode` and `NoPerRowStop` state the length bound it gives. |
| `Decoder.AllHaveEos` | src/openparse/tables/unitable/core.py:91-92 | `all(eos_id in k for k in context)`. A definition with no contract of its own; `RunStopsOnlyAtEos` and `RunNeverStopsEarly` state when the loop meets it. |
| `Decoder.Run` | src/openparse/tables/unitable/core.py:90-109 | The loop as a recursive function of the iterations left. A definition with no contract of its own; `RunShape`, `RunStopsOnlyAtEos`, `RunNeverStopsEarly` and `RunAppendsOracleChoices` state its behaviour, and `AutoregressiveDecode` is proved equal to it. |
| `Decoder.RunShape` | src/openparse/tables/unitable/core.py:86-109 | The loop keeps the row count and appends the same number of ids, at most the iteration budget, to every row. It never changes ids already there. |
| `Decoder.RunStopsOnlyAtEos` | src/openparse/tables/unitable/core.py:90-93 | If the loop stops before its budget runs out, every row contains eos. |
| `Decoder.RunNeverStopsEarly` | src/openparse/tables/unitable/core.py:90-93 | At every length the loop passed through, some row had no eos yet. |
| `Decoder.RunAppendsOracleChoices` | src/openparse/tables/unitable/core.py:95-109 | Each appended id is the oracle's choice for its row, given the batch truncated to the length at which it was appended. |
| `Decoder.NoPerRowStop` | src/openparse/tables/unitable/core.py:90-109 | There is no per-row stop. If some row still lacks eos at the end, every row, including those that already hold eos, has received the full max_decode_len ids. |
| `Decoder.RunRespectsMask` | src/openparse/tables/unitable/core.py:102-109 | If the masked greedy choice only ever yields permitted ids, every id after the prefix is permitted: in the white-list when given, not in the black-list when given. |
| `Decoder.Permitted` | src/openparse/tables/unitable/core.py:102-106 | The ids `pred_token_within_range` keeps: in the white-list when one is given, and not in the black-list when one is given. A definition with no contract of its own; it is the hypothesis of `RunRespectsMask`. |
| `CellRepair.SpaceRun` | src/openparse/tables/unitable/core.py:179 | The greedy `\s+` run is all whitespace and stops at the first non-whitespace character. |
| `CellRepair.MatchEnd` | src/openparse/tables/unitable/core.py:179 | A match found at the start of the text spans at least 4 characters, lies within the text, and matches digit, non-newline, whitespace+, digit. |
| `CellRepair.MatchEndComplete` | src/openparse/tables/unitable/core.py:179 | Any prefix of the text that matches the pattern is the match MatchEnd returns. So MatchEnd misses no match, and the match at a position is unique. |
| `CellRepair.Repair` | src/openparse/tables/unitable/core.py:179 | `re.sub` of the pattern on one string. The result is never longer than the input. `RepairShortens` states the rest. |
| `CellRepair.RepairShortens` | src/openparse/tables/unitable/core.py:179 | The repair never lengthens a string. It is strictly shorter exactly when the pattern matches somewhere. It is unchanged exactly when the pattern matches nowhere. |
| `CellRepair.RepairWithoutDigits` | src/openparse/tables/unitable/core.py:179 | A string with no digit is returned unchanged. |
| `CellRepair.RepairCharacters` | src/openparse/tables/unitable/core.py:179 | Every character of the result is a character of the input or the inserted '.'. |
| `CellRepair.RepairCellsShortens` | src/openparse/tables/unitable/core.py:179 | The comprehension over the cells yields one result per cell. Each result is never longer than its cell, and equals it exactly when the cell holds no match. |
| `CellRepair.RepairExampleDecimal` | src/openparse/tables/unitable/core.py:179 | "12. 5" becomes "12.5". |
| `CellRepair.RepairExampleText` | src/openparse/tables/unitable/core.py:179 | "abc" is unchanged. |
| `CellRepair.RepairExampleSeparatorDigit` | src/openparse/tables/unitable/core.py:179 | The separator `.` may be a digit: "12 3" becomes "1.3". |
| `CellRepair.RepairExampleNoOverlap` | src/openparse/tables/unitable/core.py:179 | Matches do not overlap: "1. 2. 3" becomes "1.2. 3". |

## Left out

- `_image_to_tensor` (core.py:36-50): image resizing, float normalisation and device placement are calls into image and tensor libraries.
- `model.encode`, `model.decode`, `model.generator` and `subsequent_mask` (core.py:85, 96-100): this is neural-network inference. Its combined effect is the abstract oracle `next`.
- `pred_token_within_range` and `greedy_sampling`: `utils` is not part of this model. Their white/black-list guarantee is the hypothesis of `RunRespectsMask` (the predicate `Permitted`), not a proved fact. The model does not say what happens when both lists are given.
- `Decoder.AutoregressiveDecode`: ids are unbounded integers; the `torch.int32` dtype of the context is not modelled. The batch size `image.shape[0]` is a parameter.
- Vocabulary `decode`/`decode_batch`, `html_str_to_token_list`, `bbox_str_to_token_list`, `cell_str_to_token_list`, `build_table_from_html_and_cell` and `html_table_template`: their definitions are not part of this model.
- `predict_html`, `predict_bboxes`, `predict_cells` and `img_to_html` (core.py:113-192): these are call chains over the pieces above, with fixed prefixes, eos ids and lengths (512, 1024, 200). `img_to_html` also calls `predict_bboxes` and `predict_cells` with too few arguments (core.py:186-187), so that path fails as written. It is not modelled.
- `BBoxRescale.RescaleBBox`: uses exact rational arithmetic instead of IEEE doubles. Python's ratio `tgt / src` and the product are floats, so rounding may differ on values within float error of a half.
- `CellRepair`: Python's `\d` and `\s` also match non-ASCII digits and whitespace (and `\x1c`-`\x1f`). The model uses the ASCII classes only.
- `torch.no_grad`, `model.eval()` and device transfers have no behaviour to state.
