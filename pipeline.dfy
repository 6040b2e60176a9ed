/** The program's global tables and counters, and the steps that work on them:
    `splitDataset`, `encodeCategorical` and the counting part of `evaluateModel`. */
module Pipeline {
  import opened Records
  import opened DecisionTree

  const MAX_ROWS := 33130
  const TRAIN_RATIO := 0.8

  /** The `double` nearest to 0.8, which is the factor the program really multiplies by. */
  const BINARY64_0_8: real := 3602879701896397.0 / 4503599627370496.0

  /** `(int)(total_rows * TRAIN_RATIO)`, computed exactly: the floor of 80% of `n`. */
  function TrainCount(n: int): (k: int)
    requires 0 <= n
    ensures 0 <= k <= n
    ensures k as real <= n as real * TRAIN_RATIO < k as real + 1.0
  {
    (n * 4) / 5
  }

  /** For every row count the table can hold, the product with the `double`
      0.8 lies in a half-open unit interval starting at `TrainCount(n)`, at least
      0.19 below its upper end, so rounding the product and truncating it gives
      `TrainCount(n)` as well. */
  lemma TrainCountMatchesBinary64(n: int)
    requires 0 <= n <= MAX_ROWS
    ensures TrainCount(n) as real <= n as real * BINARY64_0_8 <= TrainCount(n) as real + 0.81
  {
  }

  /** The globals `dataset`, `train_set`, `test_set` (each `MAX_ROWS` rows),
      `total_rows`, `train_size` and `test_size`. */
  class Globals {
    const dataset: array<DataPoint>
    const trainSet: array<DataPoint>
    const testSet: array<DataPoint>
    var totalRows: int
    var trainSize: int
    var testSize: int

    ghost predicate Valid()
      reads this
    {
      && dataset.Length == MAX_ROWS && trainSet.Length == MAX_ROWS && testSet.Length == MAX_ROWS
      && dataset != trainSet && dataset != testSet && trainSet != testSet
      && 0 <= totalRows <= MAX_ROWS
      && 0 <= trainSize <= MAX_ROWS && 0 <= testSize <= MAX_ROWS
    }

    /** The state `loadCSV` leaves behind after reading `rows`: zero-initialised
        tables with the rows stored at the front of `dataset`. */
    constructor Loaded(rows: seq<DataPoint>)
      requires |rows| <= MAX_ROWS
      ensures Valid() && fresh(dataset) && fresh(trainSet) && fresh(testSet)
      ensures totalRows == |rows| && trainSize == 0 && testSize == 0
      ensures dataset[..totalRows] == rows
      ensures forall k | totalRows <= k < MAX_ROWS :: dataset[k] == Zero
      ensures forall k | 0 <= k < MAX_ROWS :: trainSet[k] == Zero && testSet[k] == Zero
    {
      dataset := new DataPoint[MAX_ROWS](k => if 0 <= k < |rows| then rows[k] else Zero);
      trainSet := new DataPoint[MAX_ROWS](k => Zero);
      testSet := new DataPoint[MAX_ROWS](k => Zero);
      totalRows, trainSize, testSize := |rows|, 0, 0;
    }

    /** `splitDataset`: the first `TrainCount(total_rows)` rows are copied to
        `train_set` and the rest, in order, to the front of `test_set`. */
    method SplitDataset()
      requires Valid()
      modifies trainSet, testSet, this`trainSize, this`testSize
      ensures Valid() && unchanged(dataset)
      ensures trainSize == TrainCount(totalRows) && testSize == totalRows - trainSize
      ensures trainSet[..trainSize] == dataset[..trainSize]
      ensures testSet[..testSize] == dataset[trainSize..totalRows]
      ensures trainSet[..trainSize] + testSet[..testSize] == dataset[..totalRows]
      ensures forall k | trainSize <= k < MAX_ROWS :: trainSet[k] == old(trainSet[k])
      ensures forall k | testSize <= k < MAX_ROWS :: testSet[k] == old(testSet[k])
    {
      var trainCount := TrainCount(totalRows);
      trainSize := trainCount;
      testSize := totalRows - trainCount;
      var i := 0;
      while i < totalRows
        invariant 0 <= i <= totalRows
        invariant trainSize == trainCount && testSize == totalRows - trainCount
        invariant forall k | 0 <= k < i && k < trainCount :: trainSet[k] == dataset[k]
        invariant forall j | 0 <= j < i - trainCount :: testSet[j] == dataset[trainCount + j]
        invariant forall k | 0 <= k < MAX_ROWS && (i <= k || trainCount <= k) :: trainSet[k] == old(trainSet[k])
        invariant forall j | i - trainCount <= j < MAX_ROWS && 0 <= j :: testSet[j] == old(testSet[j])
      {
        if i < trainCount {
          trainSet[i] := dataset[i];
        } else {
          testSet[i - trainCount] := dataset[i];
        }
        i := i + 1;
      }
      assert dataset[..totalRows] == dataset[..trainSize] + dataset[trainSize..totalRows];
    }

    /** `encodeCategorical`: each of the first `total_rows` rows gets its four
        encoded fields from its text fields; nothing else changes. */
    method EncodeCategorical()
      requires Valid()
      modifies dataset
      ensures Valid()
      ensures forall i | 0 <= i < totalRows :: dataset[i] == Encoded(old(dataset[i]))
      ensures forall i | totalRows <= i < MAX_ROWS :: dataset[i] == old(dataset[i])
    {
      var i := 0;
      while i < totalRows
        invariant 0 <= i <= totalRows
        invariant forall k | 0 <= k < i :: dataset[k] == Encoded(old(dataset[k]))
        invariant forall k | i <= k < MAX_ROWS :: dataset[k] == old(dataset[k])
      {
        dataset[i] := dataset[i].(sexEncoded := SexEncoding(dataset[i].sex));
        dataset[i] := dataset[i].(benignMalignantEncoded := BenignMalignantEncoding(dataset[i].benignMalignant));
        dataset[i] := dataset[i].(siteEncoded := CategoryEncoding(dataset[i].site));
        dataset[i] := dataset[i].(diagnosisEncoded := CategoryEncoding(dataset[i].diagnosis));
        i := i + 1;
      }
    }

    /** The counting loop of `evaluateModel(root)`: the number of the first
        `test_size` test rows that `predict` labels correctly, or `None` when a
        `predict` call dereferences NULL (a NULL root and a non-empty test set). */
    method EvaluateModel(root: Option<Node>) returns (correct: Option<nat>)
      requires Valid()
      ensures correct == Evaluation(root, testSet[..testSize])
      ensures correct.None? <==> exists i | 0 <= i < testSize :: Predict(root, testSet[i]).None?
      ensures correct.Some? ==> correct.value == Correct(root, testSet[..testSize]) <= testSize
    {
      var correctPredictions := 0;
      var i := 0;
      while i < testSize
        invariant 0 <= i <= testSize
        invariant 0 <= correctPredictions <= i
        invariant Evaluation(root, testSet[..i]) == Some(correctPredictions)
      {
        assert testSet[..i + 1][..i] == testSet[..i];
        var predicted := Predict(root, testSet[i]);
        if predicted.None? {
          EvaluationMeaning(root, testSet[..testSize]);
          assert Predict(root, testSet[..testSize][i]).None?;
          return None;
        }
        if predicted.value == testSet[i].benignMalignantEncoded {
          correctPredictions := correctPredictions + 1;
        }
        i := i + 1;
      }
      assert testSet[..i] == testSet[..testSize];
      EvaluationMeaning(root, testSet[..testSize]);
      return Some(correctPredictions);
    }
  }
}
