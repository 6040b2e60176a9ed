/** The decision "tree" of the program: the `Node` structure, `predict`, the
    label-counting `trainDecisionTree`, and the count that `evaluateModel` keeps. */
module DecisionTree {
  import opened Records

  datatype Option<T> = None | Some(value: T)

  /** A heap-allocated `Node`; `None` stands for a NULL child pointer, and an
      `Option<Node>` for a `Node*` that may be NULL. */
  datatype Node = Node(feature: int, threshold: real, classLabel: int, left: Option<Node>, right: Option<Node>)

  predicate Childless(n: Node)
  {
    n.left.None? && n.right.None?
  }

  /** `predict(root, point)`: a node without children answers its label;
      otherwise it descends left when `age_scaled < threshold` (whatever
      `feature` holds) and right otherwise. `None` is the NULL dereference the
      program performs on a NULL root or a missing child. */
  function Predict(root: Option<Node>, point: DataPoint): (r: Option<int>)
    ensures root.None? ==> r.None?
    ensures r.Some? ==> r.value in LeafLabels(root)
    decreases root
  {
    match root
    case None => None
    case Some(n) =>
      if Childless(n) then Some(n.classLabel)
      else if point.ageScaled < n.threshold then Predict(n.left, point)
      else Predict(n.right, point)
  }

  /** Every node has both children or none. */
  predicate Full(root: Option<Node>)
    decreases root
  {
    match root
    case None => true
    case Some(n) => (n.left.None? <==> n.right.None?) && Full(n.left) && Full(n.right)
  }

  /** The labels of the childless nodes. */
  function LeafLabels(root: Option<Node>): set<int>
    decreases root
  {
    match root
    case None => {}
    case Some(n) => if Childless(n) then {n.classLabel} else LeafLabels(n.left) + LeafLabels(n.right)
  }

  /** On a non-NULL tree whose nodes have both children or none, `predict`
      never dereferences NULL and answers the label of some childless node. */
  lemma {:induction false} PredictOnFullTree(n: Node, point: DataPoint)
    requires Full(Some(n))
    ensures Predict(Some(n), point).Some?
    ensures Predict(Some(n), point).value in LeafLabels(Some(n))
  {
    if !Childless(n) {
      if point.ageScaled < n.threshold {
        PredictOnFullTree(n.left.value, point);
      } else {
        PredictOnFullTree(n.right.value, point);
      }
    }
  }

  /** Rows labelled malignant (`benign_malignant_encoded == 1`). */
  function Positives(s: seq<DataPoint>): nat
  {
    if s == [] then 0
    else Positives(s[..|s| - 1]) + (if s[|s| - 1].benignMalignantEncoded == 1 then 1 else 0)
  }

  /** Rows with any other label. */
  function Negatives(s: seq<DataPoint>): nat
  {
    if s == [] then 0
    else Negatives(s[..|s| - 1]) + (if s[|s| - 1].benignMalignantEncoded == 1 then 0 else 1)
  }

  /** Rows whose label is exactly `wanted`. */
  function WithLabel(s: seq<DataPoint>, wanted: int): nat
  {
    if s == [] then 0
    else WithLabel(s[..|s| - 1], wanted) + (if s[|s| - 1].benignMalignantEncoded == wanted then 1 else 0)
  }

  lemma {:induction false} PositivesPlusNegatives(s: seq<DataPoint>)
    ensures Positives(s) + Negatives(s) == |s|
  {
    if s != [] {
      PositivesPlusNegatives(s[..|s| - 1]);
    }
  }

  lemma {:induction false} NoPositives(s: seq<DataPoint>)
    ensures Positives(s) == 0 <==> forall i | 0 <= i < |s| :: s[i].benignMalignantEncoded != 1
  {
    if s != [] {
      NoPositives(s[..|s| - 1]);
      assert forall i | 0 <= i < |s| - 1 :: s[..|s| - 1][i] == s[i];
    }
  }

  lemma {:induction false} NoNegatives(s: seq<DataPoint>)
    ensures Negatives(s) == 0 <==> forall i | 0 <= i < |s| :: s[i].benignMalignantEncoded == 1
  {
    if s != [] {
      NoNegatives(s[..|s| - 1]);
      assert forall i | 0 <= i < |s| - 1 :: s[..|s| - 1][i] == s[i];
    }
  }

  /** The majority label of a set of rows, ties going to 0 (benign). */
  function MajorityLabel(s: seq<DataPoint>): int
  {
    if 2 * Positives(s) > |s| then 1 else 0
  }

  /** Some row is labelled 1 and some row is not. */
  predicate HasBothLabels(s: seq<DataPoint>)
  {
    (exists i | 0 <= i < |s| :: s[i].benignMalignantEncoded == 1) &&
    (exists j | 0 <= j < |s| :: s[j].benignMalignantEncoded != 1)
  }

  /** The first `size` rows of `data`, none when `size` is not positive. */
  function Rows(data: seq<DataPoint>, size: int): seq<DataPoint>
    requires size <= |data|
  {
    if size <= 0 then [] else data[..size]
  }

  /** `trainDecisionTree(data, size)`. It counts the labels of the first `size`
      rows; NULL for `size == 0`; a leaf when at most one label occurs; otherwise
      a childless node on feature `rand() % 5` with threshold 0.5. Both carry the
      majority label, ties going to 0. `randValue` is what `rand()` returned;
      `heapFeature` and `heapThreshold` are what the fresh allocation held in the
      two fields a leaf never assigns. */
  method TrainDecisionTree(data: array<DataPoint>, size: int, randValue: nat, heapFeature: int, heapThreshold: real)
    returns (root: Option<Node>)
    requires size <= data.Length
    ensures root.None? <==> size == 0
    ensures root.Some? ==> Childless(root.value)
    ensures root.Some? ==> root.value.classLabel == MajorityLabel(Rows(data[..], size))
    ensures root.Some? && HasBothLabels(Rows(data[..], size)) ==>
              root.value.feature == randValue % 5 && 0 <= root.value.feature < 5 && root.value.threshold == 0.5
    ensures root.Some? && !HasBothLabels(Rows(data[..], size)) ==>
              root.value.feature == heapFeature && root.value.threshold == heapThreshold
    ensures root.Some? && 0 < size && (forall i | 0 <= i < size :: data[i].benignMalignantEncoded == 1) ==>
              root.value.classLabel == 1
    ensures root.Some? && (forall i | 0 <= i < size :: data[i].benignMalignantEncoded != 1) ==>
              root.value.classLabel == 0
    ensures root.Some? ==> forall point :: Predict(root, point) == Some(root.value.classLabel)
  {
    if size == 0 { return None; }
    var countPos, countNeg := 0, 0;
    var i := 0;
    while i < size
      invariant 0 <= i <= if size < 0 then 0 else size
      invariant countPos == Positives(data[..i]) && countNeg == Negatives(data[..i])
    {
      assert data[..i + 1][..i] == data[..i];
      if data[i].benignMalignantEncoded == 1 {
        countPos := countPos + 1;
      } else {
        countNeg := countNeg + 1;
      }
      i := i + 1;
    }
    ghost var s := Rows(data[..], size);
    assert data[..i] == s;
    PositivesPlusNegatives(s);
    NoPositives(s);
    NoNegatives(s);
    if countPos == 0 || countNeg == 0 {
      var majority := if countPos > countNeg then 1 else 0;
      return Some(Node(heapFeature, heapThreshold, majority, None, None));
    }
    var majority := if countPos > countNeg then 1 else 0;
    return Some(Node(randValue % 5, 0.5, majority, None, None));
  }

  /** The correct-prediction count `evaluateModel` reaches over the rows `s`,
      or `None` when one of its `predict` calls dereferences NULL. */
  function Evaluation(root: Option<Node>, s: seq<DataPoint>): (r: Option<nat>)
    ensures r.Some? ==> r.value <= |s|
  {
    if s == [] then Some(0)
    else
      var last := s[|s| - 1];
      match Evaluation(root, s[..|s| - 1])
      case None => None
      case Some(k) =>
        match Predict(root, last)
        case None => None
        case Some(predicted) => Some(if predicted == last.benignMalignantEncoded then k + 1 else k)
  }

  /** Rows on which `root` predicts the row's own label, counted front to back. */
  function Correct(root: Option<Node>, s: seq<DataPoint>): nat
  {
    if s == [] then 0
    else (if Predict(root, s[0]) == Some(s[0].benignMalignantEncoded) then 1 else 0) + Correct(root, s[1..])
  }

  lemma {:induction false} CorrectAppend(root: Option<Node>, s: seq<DataPoint>, t: seq<DataPoint>)
    ensures Correct(root, s + t) == Correct(root, s) + Correct(root, t)
  {
    if s == [] {
      assert s + t == t;
    } else {
      assert (s + t)[1..] == s[1..] + t;
      CorrectAppend(root, s[1..], t);
    }
  }

  /** The evaluation fails exactly when `predict` dereferences NULL on some
      row, and otherwise it is the number of rows predicted correctly. */
  lemma {:induction false} EvaluationMeaning(root: Option<Node>, s: seq<DataPoint>)
    ensures Evaluation(root, s).None? <==> exists i | 0 <= i < |s| :: Predict(root, s[i]).None?
    ensures Evaluation(root, s).Some? ==> Evaluation(root, s).value == Correct(root, s)
  {
    if s != [] {
      var init, last := s[..|s| - 1], s[|s| - 1];
      EvaluationMeaning(root, init);
      assert s == init + [last];
      assert forall i | 0 <= i < |init| :: init[i] == s[i];
      CorrectAppend(root, init, [last]);
      assert Correct(root, [last]) == if Predict(root, last) == Some(last.benignMalignantEncoded) then 1 else 0 by {
        assert [last][1..] == [];
      }
      if Predict(root, last).None? {
        assert Predict(root, s[|s| - 1]).None?;
      }
    }
  }

  /** Against a tree that is a single childless node, the count is the number
      of rows that carry the node's label. */
  lemma {:induction false} EvaluationOfChildless(n: Node, s: seq<DataPoint>)
    requires Childless(n)
    ensures Evaluation(Some(n), s) == Some(WithLabel(s, n.classLabel))
  {
    if s != [] {
      EvaluationOfChildless(n, s[..|s| - 1]);
    }
  }
}
