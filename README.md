# A Dafny model of the skin-lesion classifier pipeline (`fin.c`)

`fin.c` keeps a fixed table of `MAX_ROWS` (33130) metadata records in global arrays.
Its `main` runs six steps in order. It loads the CSV. It encodes the categorical
text fields of each record as small integers. It scales the features. It splits
the table into an 80% training prefix and a test suffix. It "trains" a one-node
decision tree by counting the labels of the training rows. It evaluates the tree:
it predicts each test row by walking the tree and counts the correct answers.
It also has an unused in-place string trimmer.

The model follows the code's own form:

- `clib.dfy` (module `CLib`) holds the C it relies on. Plain `char` is a signed
  8-bit value. A string is the sequence of characters in front of its NUL.
  `strcmp` is the difference of the first differing bytes, read as unsigned.
  `strlen` is the first NUL in a buffer. `%` truncates toward zero.
- `records.dfy` (module `Records`) holds the `DataPoint` record as a datatype and
  the per-field encodings that `encodeCategorical` assigns.
- `tree.dfy` (module `DecisionTree`) holds `Node` as a datatype.
  - A NULL `Node*` is `None`.
  - `predict` is the recursive function `Predict`.
  - `trainDecisionTree` is a method with the program's counting loop.
  - `Evaluation` is what `evaluateModel`'s loop counts.
- `pipeline.dfy` (module `Pipeline`) holds the class `Globals`. Its fields are the
  global arrays and counters. `SplitDataset` and `EncodeCategorical` update
  them with the program's loops. `EvaluateModel` reads `test_set` and
  `test_size` and returns the count its loop reaches.
- `trim.dfy` (module `Trim`) holds `TrimWhitespace`. It works in place on a
  NUL-terminated `array<CChar>`.

The model follows what the code does, not what its progress message at
fin.c:164 ("Training decision tree using Information Gain...") suggests:

- `trainDecisionTree` never chooses a split by impurity and never builds children
  (fin.c:131-137). It returns NULL, a leaf, or a childless node with a random
  feature and threshold 0.5.
- A majority tie gets label 0 (fin.c:126, 134).
- `predict` always compares `age_scaled`, whatever `feature` holds (fin.c:142).
  Because every node it gets from `trainDecisionTree` is childless, it always
  answers the stored label.
- An empty `benign_malignant` field encodes as 1 (fin.c:90).
- With a signed `char`, the `site`/`diagnosis` code -1 is not reserved for an
  empty field. A first byte of -1 (0xFF) or -101 (0x9B) also gives -1, because
  C's `%` is truncating (fin.c:91-92). For a non-negative first byte the code is
  in [0, 99]. `Records.CategoryEncoding` states both facts.
- `trainDecisionTree` with a negative size skips its loop and returns a leaf
  labelled 0 (fin.c:116-129). The model keeps this. The program itself only ever
  passes `train_size`, which is never negative.

## Model

| member | source | states |
|---|---|---|
| `CLib.StrCmpZeroIff` | fin.c:89-90 | `strcmp` returns 0 exactly when the two strings are equal, so the `== 0` tests compare for equality |
| `CLib.CRem100` | fin.c:91-92 | C's `x % 100`: in [0, 99] for non-negative `x`, in [-99, 0] for negative `x`, and always congruent to `x` modulo 100 |
| `CLib.NulIndex` | fin.c:49 | `strlen` from a position: the index of the first NUL at or after that position |
| `CLib.ContentAfterTerminator` | fin.c:51 | writing a NUL at or before the old terminator makes the string end exactly there |
| `Records.SexEncoding` | fin.c:89 | `sex_encoded` is 1 iff `sex` is exactly `male`, and 0 iff it is not, including the empty string |
| `Records.BenignMalignantEncoding` | fin.c:90 | `benign_malignant_encoded` is 0 iff the field is exactly `benign`, and 1 iff it is not, including the empty string |
| `Records.CategoryEncoding` | fin.c:91-92 | the code is -1 iff the field is empty or starts with byte -1 or -101; for a non-negative first byte it is that byte mod 100, in [0, 99]; for a negative first byte it is in [-99, 0] and congruent to it mod 100 |
| `Records.Encoded` | fin.c:88-93 | one encoded row: only the four `*_encoded` fields change, and they have the meanings above |
| `DecisionTree.Predict` | fin.c:140-144 | on every tree: a NULL root gives the NULL-dereference result, and whenever `predict` answers, its answer is the label of a childless node of the tree |
| `DecisionTree.PredictOnFullTree` | fin.c:140-144 | on a non-NULL tree whose nodes have both children or none, `predict` never dereferences NULL, and it answers the label of some childless node |
| `DecisionTree.PositivesPlusNegatives` | fin.c:118-122 | the positive and negative counts together number the rows counted |
| `DecisionTree.NoPositives` | fin.c:124 | `count_pos == 0` iff no row has label 1 |
| `DecisionTree.NoNegatives` | fin.c:124 | `count_neg == 0` iff every row has label 1 |
| `DecisionTree.TrainDecisionTree` | fin.c:115-138 | NULL iff `size == 0`. Otherwise the node is childless and carries the majority label of the first `size` rows, ties going to 0. A single-label input gives a leaf, label 1 when all rows are 1 and label 0 when none is. Both labels present give feature `rand() % 5` in [0, 5) and threshold 0.5. `predict` on the result answers its label for every point |
| `DecisionTree.Evaluation` | fin.c:147-154 | the count the evaluation loop reaches never exceeds the number of rows |
| `DecisionTree.EvaluationMeaning` | fin.c:147-154 | the evaluation fails exactly when `predict` dereferences NULL on some row; otherwise it equals the number of rows whose prediction equals `benign_malignant_encoded` |
| `DecisionTree.EvaluationOfChildless` | fin.c:140-154 | against a single childless node, the count is the number of rows labelled with that node's label |
| `Pipeline.TrainCount` | fin.c:74 | `train_count` lies in [0, n] and is the floor of `n * 0.8` |
| `Pipeline.TrainCountMatchesBinary64` | fin.c:74 | for every row count up to `MAX_ROWS`, the exact product with the binary64 value of 0.8 lies between `TrainCount(n)` and `TrainCount(n) + 0.81` |
| `Pipeline.Globals.Loaded` | fin.c:39-43 | zero-initialised global tables with the loaded rows at the front of `dataset`, and both sizes 0 |
| `Pipeline.Globals.SplitDataset` | fin.c:73-85 | `train_size == TrainCount(total_rows)` and `test_size == total_rows - train_size`. `train_set` starts with `dataset[..train_size]` and `test_set` with `dataset[train_size..total_rows]`, so together they give `dataset[..total_rows]` back in order. `dataset` and the tails of both arrays are unchanged |
| `Pipeline.Globals.EncodeCategorical` | fin.c:87-95 | every row below `total_rows` becomes `Encoded` of its old value; rows from `total_rows` on are unchanged |
| `Pipeline.Globals.EvaluateModel` | fin.c:146-154 | the count over the first `test_size` test rows equals `Evaluation` and lies in [0, `test_size`]. It is `None` iff some `predict` call dereferences NULL. Otherwise it is the number of rows predicted correctly |
| `Trim.TrimEnd` | fin.c:50-51 | trimming the end gives a prefix that is empty or ends in a non-space, and only spaces follow it |
| `Trim.TrimEndUnique` | fin.c:50-51 | a prefix ending in a non-space and followed only by spaces is the trimmed string |
| `Trim.AllSpacesIffTrimEndEmpty` | fin.c:47-48 | a string is empty or all spaces exactly when trimming its end leaves nothing |
| `Trim.TrimWhitespace` | fin.c:45-52 | an empty or all-space string leaves the buffer unchanged. Otherwise the only write is a NUL just after the last non-space, so the string loses its trailing spaces and keeps its leading ones. The result is always a prefix of the original |

## Left out

- `loadCSV` (fin.c:54-71): file I/O, `fgets`/`sscanf` parsing and `printf`. `Pipeline.Globals.Loaded` stands for the state it leaves. The field widths that `sscanf` enforces are not modelled.
- `normalizeFeatures` (fin.c:97-113): `float` arithmetic through `atof` and an unguarded division by `max_age`. The five scaled fields are abstract reals, and no step of the model sets them.
- `evaluateModel`'s accuracy and its `printf` (fin.c:155-156): `float` division, unguarded when `test_size == 0`. Only the correct-prediction count is modelled.
- The `printf` calls in `splitDataset` and `encodeCategorical`, and `main` (fin.c:159-168), which only runs the steps in order.
- `Predict`: `age_scaled < threshold` is a comparison of reals, not of IEEE `float`s.
- `DecisionTree.TrainDecisionTree`: the value `rand()` returns is a parameter. So are the `feature` and `threshold` fields of a leaf, which `malloc` leaves uninitialised. A failed `malloc` and the never-freed nodes are not modelled.
- `Pipeline.TrainCount`: it is the exact `(4 * n) / 5`. The binary64 rounding of `n * 0.8` is not modelled. `TrainCountMatchesBinary64` bounds the exact product with the binary64 constant. The rounding step is argued in words: integers up to 2^53 are binary64 values, so rounding a product that lies in that range cannot leave it.
- A NULL dereference in `predict` is undefined behaviour in C and usually a crash. The model returns `None` instead, and `EvaluateModel` then returns `None`.
- Plain `char` is taken to be signed, as on x86-64. With an unsigned `char`, the site and diagnosis codes would always be in [0, 99] or -1.
- C `int` overflow: every counter is bounded by `MAX_ROWS`, so none can overflow, and `int` is unbounded in the model.
