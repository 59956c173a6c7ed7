# simplelite top-N selection, in Dafny

This project models the core of the TensorFlow Lite `simplelite` image
classification example (`simplelite.cc`). It covers three pieces.

- **`GetTopN`** is bounded top-N selection over the model's output score
  vector. Scores below the threshold are skipped. Each remaining
  `(score, index)` pair is pushed into a `std::priority_queue` ordered by
  `std::greater`, which is a min-queue. When the queue grows past
  `num_results`, its smallest pair is evicted. At the end the queue is copied
  out in ascending order, and the whole output vector is reversed.
- **Label resolution** happens in the result loop of `RunInferenceOnImage`.
  If a class index is within the label table, the text is that label.
  Otherwise it is `"Prediction: "` followed by the index.
- **The normalization loop** has three nested loops: rows, columns and
  channels. They write one tensor value per image byte, and the input and
  output pointers advance together.

Modules:

- `Ordering` (ordering.dfy) holds the `(confidence, index)` pair. It defines
  the lexicographic order `std::pair` gives it, the sortedness predicates,
  and `std::reverse`.
- `MinQueue` (min_queue.dfy) is the priority queue. It is held as a
  non-strictly ascending sequence, so `top()` is the first element. It
  provides `push`, `top`, `pop` and the copy-out loop.
- `TopN` (top_n.dfy) defines `GetTopN` as a fold of the loop body over the
  indices. It also defines the top-N guarantee `IsTopN`, which does not
  mention the algorithm, and the loop invariant that connects the two.
- `TopNProperties` (top_n_properties.dfy) holds the consequences. `IsTopN`
  has exactly one solution. It also covers distinct indices, the tie-break,
  the empty cases, a negative `num_results`, and two worked examples.
- `Labels` (labels.dfy) covers label resolution and the decimal rendering of
  the index, together with a parser that reads the decimal back. It also
  models the report lines.
- `Preprocess` (preprocess.dfy) is the normalization traversal. The
  per-sample formula is a function parameter.

Model decisions:

- Scores are integers. The code only ever compares scores and never does
  arithmetic on them. The worked examples therefore write 0.9 as 90, and so
  on.
- `num_results` is a C++ `int`, modelled as the newtype `int32`.
- The queue size is a `size_t` compared against `num_results`, so a negative
  `num_results` first becomes `2^64 + num_results`. `TopN.Capacity` writes
  this conversion out. As a result, a negative limit never evicts anything.
  The model assumes a 64-bit `size_t`.
- `GetTopN` takes the output vector's contents on entry, `topResults`,
  because the code appends and then reverses the whole vector. The top-N
  guarantee holds for the newly added part. It holds for the whole result
  when the vector starts empty, as it does at the only call site (line 234).

The comment above `GetTopN` promises the top N confidences over the
threshold, sorted in descending order. The code settles two points the
comment leaves open:

- The comment does not say how ties are broken. The code pushes first and
  then evicts the smallest `(score, index)` pair. Among equal scores, the
  larger index is kept and listed first.
- `num_results` is an `int`. A negative value keeps every qualifying score.

## Model

| member | source | states |
|---|---|---|
| MinQueue.Push | tensorflow/tensorflow/contrib/lite/examples/simplelite/simplelite.cc:80-94 | pushing into the `std::greater` queue keeps it in ascending pair order. The queue gains exactly the pushed pair, counted with multiplicity. A queue with no repeated pair stays without repeats when the new pair is not already in it. |
| MinQueue.Top | tensorflow/tensorflow/contrib/lite/examples/simplelite/simplelite.cc:80-82 | the top of the queue is one of its pairs, and no pair in the queue is smaller |
| MinQueue.Pop | tensorflow/tensorflow/contrib/lite/examples/simplelite/simplelite.cc:98 | popping removes exactly one copy of the top and leaves the rest in order |
| MinQueue.Drain | tensorflow/tensorflow/contrib/lite/examples/simplelite/simplelite.cc:103-106 | the copy-out loop appends every queued pair to the output vector in ascending order, after what the vector already held |
| Ordering.Reverse | tensorflow/tensorflow/contrib/lite/examples/simplelite/simplelite.cc:107 | `std::reverse` keeps the length, and element i of the result is element length-1-i of the input |
| Ordering.ReverseIncreasing | tensorflow/tensorflow/contrib/lite/examples/simplelite/simplelite.cc:107 | reversing a strictly ascending sequence gives a strictly descending one |
| Ordering.ReverseAppend | tensorflow/tensorflow/contrib/lite/examples/simplelite/simplelite.cc:104-107 | reversing the whole vector puts the appended pairs first and the earlier contents, reversed, after them |
| TopN.Capacity | tensorflow/tensorflow/contrib/lite/examples/simplelite/simplelite.cc:97 | the bound the queue size is compared with is `num_results` converted to a 64-bit `size_t`, which is the value modulo 2^64 |
| TopN.Offer | tensorflow/tensorflow/contrib/lite/examples/simplelite/simplelite.cc:86-99 | one iteration of the loop body keeps the queue sorted. Its contract says only that; `OfferPreservesInvariant`, `PushKeepsInvariant` and `EvictKeepsInvariant` carry the rest. |
| TopN.Scan | tensorflow/tensorflow/contrib/lite/examples/simplelite/simplelite.cc:85-100 | the queue stays sorted after any number of iterations of the index loop. Its contract says only that; `ScanKeepsInvariant` carries the top-N invariant. |
| TopN.OfferPreservesInvariant | tensorflow/tensorflow/contrib/lite/examples/simplelite/simplelite.cc:85-100 | one loop iteration keeps the queue a strictly ascending top-N of the scores seen so far. All pairs are genuine and clear the threshold. The size is min(capacity, qualifying count). Every qualifying pair is kept while there is room, and every qualifying pair left out is below every pair kept. |
| TopN.PushKeepsInvariant | tensorflow/tensorflow/contrib/lite/examples/simplelite/simplelite.cc:94-97 | a qualifying pair pushed into a queue with room is kept, and the invariant still holds |
| TopN.EvictKeepsInvariant | tensorflow/tensorflow/contrib/lite/examples/simplelite/simplelite.cc:94-99 | a pair pushed into a full queue, followed by popping the smallest, keeps the size at capacity. Every dropped pair, old or new, is below every pair kept. |
| TopN.ScanKeepsInvariant | tensorflow/tensorflow/contrib/lite/examples/simplelite/simplelite.cc:84-100 | the invariant holds after every prefix of the index loop |
| TopN.DescendingQueueMeetsSpec | tensorflow/tensorflow/contrib/lite/examples/simplelite/simplelite.cc:102-107 | the final queue, drained and reversed, meets the top-N guarantee `IsTopN` |
| TopN.GetTopN | tensorflow/tensorflow/contrib/lite/examples/simplelite/simplelite.cc:77-108 | the result holds the earlier contents plus min(capacity, number of scores not below the threshold) new pairs. The new pairs come first and meet `IsTopN`: strictly descending in (score, index), each equal to (prediction[i], i) for a valid i whose score is not below the threshold, every qualifying pair kept while there is room, and every qualifying pair left out below every pair kept. The earlier contents follow, reversed. From an empty vector the whole result meets `IsTopN`. |
| TopNProperties.TopNUnique | tensorflow/tensorflow/contrib/lite/examples/simplelite/simplelite.cc:77-108 | at most one sequence meets the top-N guarantee for given scores, limit and threshold, so the guarantee fully determines the output |
| TopNProperties.GetTopNMeetsSpecExactly | tensorflow/tensorflow/contrib/lite/examples/simplelite/simplelite.cc:77-108 | a sequence is the output of `GetTopN` on an empty vector if and only if it meets the top-N guarantee |
| TopNProperties.IndicesDistinct | tensorflow/tensorflow/contrib/lite/examples/simplelite/simplelite.cc:84-94 | every listed index is a valid class index whose score is not below the threshold, and no index is listed twice |
| TopNProperties.TieGoesToLargerIndex | tensorflow/tensorflow/contrib/lite/examples/simplelite/simplelite.cc:80-99 | if two indices have equal scores and the smaller one is kept, the larger one is kept too and listed before it |
| TopNProperties.NothingSelected | tensorflow/tensorflow/contrib/lite/examples/simplelite/simplelite.cc:85-99 | a limit of zero, an empty score vector, or scores all below the threshold give an empty result |
| TopNProperties.NegativeLimitKeepsAll | tensorflow/tensorflow/contrib/lite/examples/simplelite/simplelite.cc:97-99 | with a negative `num_results`, every qualifying score is listed, because the unsigned comparison never triggers eviction |
| TopNProperties.ExampleTopTwo | tensorflow/tensorflow/contrib/lite/examples/simplelite/simplelite.cc:77-108 | scores 90, 5, 40, 95, 20 with limit 2 and threshold 30 give (95, 3) then (90, 0) |
| TopNProperties.ExampleNoneAbove | tensorflow/tensorflow/contrib/lite/examples/simplelite/simplelite.cc:90-92 | scores 10, 20 with limit 5 and threshold 50 give nothing |
| Labels.DecimalRoundTrip | tensorflow/tensorflow/contrib/lite/examples/simplelite/simplelite.cc:251 | reading back the decimal digits written for a non-negative number gives that number |
| Labels.Decimal | tensorflow/tensorflow/contrib/lite/examples/simplelite/simplelite.cc:243 | a non-negative number is written as canonical decimal digits. There is at least one digit, and the only text starting with `0` is `"0"`, written for zero. |
| Labels.IntToString | tensorflow/tensorflow/contrib/lite/examples/simplelite/simplelite.cc:243 | `operator<<` on an `int` index gives canonical decimal text. It has a minus sign exactly when the index is negative, never `"-0"` and no leading zeros, and it reads back as the index. |
| Labels.CanonicalDigitsAreDecimal | tensorflow/tensorflow/contrib/lite/examples/simplelite/simplelite.cc:243 | any canonical digit string is exactly what `Decimal` writes for the number it denotes |
| Labels.CanonicalIntIsIntToString | tensorflow/tensorflow/contrib/lite/examples/simplelite/simplelite.cc:251 | a canonical signed decimal that reads back as an integer is exactly that integer's `IntToString` text. So the fallback contract of `ResolveLabel` determines the text. |
| Labels.ResolveLabel | tensorflow/tensorflow/contrib/lite/examples/simplelite/simplelite.cc:246-252 | an index inside the label table yields its label. Any other index yields `"Prediction: "` followed by canonical decimal text that reads back as the index. This includes a negative index, because the comparison is unsigned. With `CanonicalIntIsIntToString`, that suffix can only be the index as `operator<<` writes it. |
| Labels.SelectedIndicesResolve | tensorflow/tensorflow/contrib/lite/examples/simplelite/simplelite.cc:246-249 | when the label table is at least as long as the score vector, every selected result gets a real label rather than the fallback |
| Labels.ReportLine | tensorflow/tensorflow/contrib/lite/examples/simplelite/simplelite.cc:243-254 | a report line is, in order: the index in decimal, one space, the confidence text, two spaces, the resolved label and a newline. The contract pins each part and the total length. |
| Labels.Report | tensorflow/tensorflow/contrib/lite/examples/simplelite/simplelite.cc:239-255 | the report is empty exactly when there are no results, and otherwise it ends with a newline |
| Labels.ReportHasOneLinePerResult | tensorflow/tensorflow/contrib/lite/examples/simplelite/simplelite.cc:239-255 | the report holds exactly one newline per result, given that labels and score texts hold no newline |
| Labels.LineHasOneNewline | tensorflow/tensorflow/contrib/lite/examples/simplelite/simplelite.cc:243-254 | each report line holds exactly one newline, the one ending it, given that labels and score texts hold no newline |
| Labels.ReportAppend | tensorflow/tensorflow/contrib/lite/examples/simplelite/simplelite.cc:239-255 | the report is built line by line, in result order: the report of two runs of results is the two reports concatenated |
| Preprocess.Normalize | tensorflow/tensorflow/contrib/lite/examples/simplelite/simplelite.cc:189-200 | the loop writes exactly height×width×channels values. Value k is the formula applied to input byte k, and the sample at row y, column x, channel c sits at row-major position (y·width + x)·channels + c. |
| Preprocess.OffsetInRange | tensorflow/tensorflow/contrib/lite/examples/simplelite/simplelite.cc:189-200 | every (row, column, channel) of the grid maps to a position inside the height×width×channels buffer |
| Preprocess.OffsetDecodes | tensorflow/tensorflow/contrib/lite/examples/simplelite/simplelite.cc:189-200 | the row, column and channel can be recovered from a row-major position, so distinct samples never share a position |

## Left out

- The score type is floating point in the source. Scores are integers here, which keeps every comparison the code makes. Two things are lost. NaN scores are not modelled, and the source's `value < threshold` test lets them through. The sign of a zero score is not kept: `-0.0` and `+0.0` compare equal, so they become one integer, whereas the source stores and prints the sign in `result.first`.
- Image loading and resizing (`LoadImageFromFile`) is left out: it calls OpenCV's `imread` and `resize`, a foreign library.
- Building the model, building the interpreter, allocating tensors and invoking inference are left out: they are opaque calls into the TensorFlow Lite runtime. The score vector is a parameter of `GetTopN`.
- Reading the label file with `std::ifstream`/`getline` is file I/O, so it is left out. The label table is a parameter.
- Preprocess.Normalize: the per-sample formula `(byte - 127.5) / 127.5` in single-precision floating point is a function parameter. The model proves which byte feeds which output, not the numeric values.
- Preprocess.Normalize: the dimensions are naturals. The source uses the constants 224, 224 and 3, so negative dimensions never occur.
- Preprocess.Normalize: the source reads the image buffer without a bounds check. The model requires the buffer to hold at least height×width×channels bytes, and does not model the read past the end.
- Labels.ReportLine: the confidence is rendered by the stream with `precision(3)`. That floating-point formatting is a text parameter here, so the model fixes where the confidence text sits in the line but not its digits.
- Timing with `std::chrono`, the logging and `CHECK`/`exit` plumbing, and `main`'s argument handling are process plumbing and are not modelled.
- The final `return result` of `RunInferenceOnImage` returns an empty string rather than the report. It has no logic to model.
