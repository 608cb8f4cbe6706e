/** Scoring of a classification run: per-class F1 scores and evaluation counts from the
    confusion tables of the iterations. */
module FScore {

  /** Row: the class of the data; column: the class it was given. */
  type Table = seq<seq<nat>>

  predicate Square(t: Table, n: nat) {
    |t| == n && Rectangular(t, n)
  }

  predicate Rectangular(t: Table, n: nat) {
    forall i :: 0 <= i < |t| ==> |t[i]| == n
  }

  function Sum(s: seq<nat>): (r: nat)
    ensures forall i :: 0 <= i < |s| ==> s[i] <= r
  {
    if s == [] then 0
    else
      assert forall i :: 0 <= i < |s| - 1 ==> s[i] == s[..|s| - 1][i];
      Sum(s[..|s| - 1]) + s[|s| - 1]
  }

  /** A column, from top to bottom. */
  function Column(t: Table, c: nat): (s: seq<nat>)
    requires forall i :: 0 <= i < |t| ==> c < |t[i]|
    ensures |s| == |t| && forall i :: 0 <= i < |s| ==> s[i] == t[i][c]
  {
    seq<nat>(|t|, i requires 0 <= i < |t| => t[i][c])
  }

  function RowSums(t: Table): (s: seq<nat>)
    ensures |s| == |t| && forall i :: 0 <= i < |s| ==> s[i] == Sum(t[i])
  {
    seq<nat>(|t|, i requires 0 <= i < |t| => Sum(t[i]))
  }

  function ColumnSums(t: Table, n: nat): (s: seq<nat>)
    requires Rectangular(t, n)
    ensures |s| == n && forall c :: 0 <= c < n ==> s[c] == Sum(Column(t, c))
  {
    seq<nat>(n, c requires 0 <= c < n => Sum(Column(t, c)))
  }

  lemma {:induction false} SumOfSums(a: seq<nat>, b: seq<nat>, c: seq<nat>)
    requires |a| == |b| == |c| && forall i :: 0 <= i < |a| ==> c[i] == a[i] + b[i]
    ensures Sum(c) == Sum(a) + Sum(b)
  {
    if a != [] {
      SumOfSums(a[..|a| - 1], b[..|b| - 1], c[..|c| - 1]);
    }
  }

  lemma {:induction false} SumOfZeros(s: seq<nat>)
    requires forall i :: 0 <= i < |s| ==> s[i] == 0
    ensures Sum(s) == 0
  {
    if s != [] {
      SumOfZeros(s[..|s| - 1]);
    }
  }

  /** A single entry among zeros: with SumOfSums this determines the sum of anything. */
  lemma {:induction false} SumOfOne(s: seq<nat>, i: nat)
    requires i < |s| && forall j :: 0 <= j < |s| && j != i ==> s[j] == 0
    ensures Sum(s) == s[i]
  {
    if i < |s| - 1 {
      SumOfOne(s[..|s| - 1], i);
    } else {
      SumOfZeros(s[..|s| - 1]);
    }
  }

  lemma SumGrows(s: seq<nat>)
    requires s != []
    ensures Sum(s) == Sum(s[..|s| - 1]) + s[|s| - 1]
  {
  }

  lemma ColumnGrows(t: Table, n: nat, c: nat)
    requires t != [] && Rectangular(t, n) && c < n
    ensures Sum(Column(t, c)) == Sum(Column(t[..|t| - 1], c)) + t[|t| - 1][c]
  {
    hide Sum;
    SumGrows(Column(t, c));
    assert Column(t, c)[..|t| - 1] == Column(t[..|t| - 1], c);
  }

  /** Summing a table by columns gives what summing it by rows gives. */
  lemma {:induction false} RowsAreColumns(t: Table, n: nat)
    requires Rectangular(t, n)
    ensures Sum(ColumnSums(t, n)) == Sum(RowSums(t))
  {
    if t == [] {
      SumOfZeros(ColumnSums(t, n));
    } else {
      var front, last := t[..|t| - 1], t[|t| - 1];
      RowsAreColumns(front, n);
      forall c | 0 <= c < n
        ensures ColumnSums(t, n)[c] == ColumnSums(front, n)[c] + last[c]
      {
        ColumnGrows(t, n, c);
      }
      hide Sum;
      SumOfSums(ColumnSums(front, n), last, ColumnSums(t, n));
      SumGrows(RowSums(t));
      assert RowSums(t)[..|t| - 1] == RowSums(front);
    }
  }

  // ----- Counts of one class -----

  function TruePositives(t: Table, n: nat, c: nat): nat
    requires Square(t, n) && c < n
  {
    t[c][c]
  }

  function FalseNegatives(t: Table, n: nat, c: nat): nat
    requires Square(t, n) && c < n
  {
    Sum(t[c]) - t[c][c]
  }

  function FalsePositives(t: Table, n: nat, c: nat): nat
    requires Square(t, n) && c < n
  {
    assert Column(t, c)[c] == t[c][c];
    Sum(Column(t, c)) - t[c][c]
  }

  /** Every error is a miss of one class and a false alarm of another: over all classes the
      false negatives and the false positives are equally many, and the evaluations counted
      per class add up to the whole table. */
  lemma ErrorsBalance(t: Table, n: nat, negatives: seq<nat>, positives: seq<nat>, evaluations: seq<nat>)
    requires Square(t, n) && |negatives| == |positives| == |evaluations| == n
    requires forall c :: 0 <= c < n ==>
      && negatives[c] == FalseNegatives(t, n, c) && positives[c] == FalsePositives(t, n, c)
      && evaluations[c] == TruePositives(t, n, c) + FalseNegatives(t, n, c)
    ensures Sum(negatives) == Sum(positives)
    ensures Sum(evaluations) == Sum(RowSums(t))
  {
    hide Sum;
    var hits := seq<nat>(n, c requires 0 <= c < n => t[c][c]);
    RowsAreColumns(t, n);
    SumOfSums(hits, negatives, RowSums(t));
    SumOfSums(hits, positives, ColumnSums(t, n));
    forall c | 0 <= c < n
      ensures evaluations[c] == RowSums(t)[c]
    {
      assert TruePositives(t, n, c) + FalseNegatives(t, n, c) == Sum(t[c]);
    }
    assert evaluations == RowSums(t);
  }

  // ----- Scores -----

  /** The F1 score in its usual closed form. */
  function F1(tp: nat, fp: nat, fn: nat): (r: real)
  {
    if tp == 0 then 0.0 else (2 * tp) as real / (2 * tp + fp + fn) as real
  }

  lemma F1Bounds(tp: nat, fp: nat, fn: nat)
    ensures 0.0 <= F1(tp, fp, fn) <= 1.0
    ensures F1(tp, fp, fn) == 1.0 <==> tp != 0 && fp == 0 && fn == 0
  {
    if tp != 0 {
      QuotientBounds((2 * tp) as real, (2 * tp + fp + fn) as real);
    }
  }

  lemma QuotientBounds(a: real, b: real)
    requires 0.0 <= a <= b && b > 0.0
    ensures 0.0 <= a / b <= 1.0 && (a / b == 1.0 <==> a == b)
  {
    assert (a / b) * b == a;
  }

  /** The score as the source computes it from a row and a column of the table: the harmonic
      mean of precision and recall, zero without true positives. */
  ghost predicate IsScore(score: real, t: Table, n: nat, c: nat)
    requires Square(t, n) && c < n
  {
    if t[c][c] == 0 then score == 0.0
    else
      var recall, precision := t[c][c] as real / Sum(t[c]) as real, t[c][c] as real / Sum(Column(t, c)) as real;
      && precision + recall > 0.0
      && score == 2.0 * (precision * recall) / (precision + recall)
  }

  lemma ScoreIs(t: Table, n: nat, c: nat)
    requires Square(t, n) && c < n
    ensures IsScore(F1(TruePositives(t, n, c), FalsePositives(t, n, c), FalseNegatives(t, n, c)), t, n, c)
    ensures F1(TruePositives(t, n, c), FalsePositives(t, n, c), FalseNegatives(t, n, c))
            * (Sum(t[c]) + Sum(Column(t, c))) as real == (2 * t[c][c]) as real
  {
    hide Sum;
    var tp, fp, fn := TruePositives(t, n, c), FalsePositives(t, n, c), FalseNegatives(t, n, c);
    assert Sum(t[c]) == tp + fn && Sum(Column(t, c)) == tp + fp;
    if tp > 0 {
      HarmonicMean(tp as real, fp as real, fn as real);
      QuotientBack((2 * tp) as real, (2 * tp + fp + fn) as real);
    }
  }

  lemma QuotientBack(a: real, b: real)
    requires b != 0.0
    ensures (a / b) * b == a
  {
  }

  /** The harmonic mean of precision and recall is the closed form. */
  lemma HarmonicMean(tp: real, fp: real, fn: real)
    requires tp > 0.0 && fp >= 0.0 && fn >= 0.0
    ensures var recall := tp / (tp + fn); var precision := tp / (tp + fp);
      precision + recall > 0.0
      && 2.0 * (precision * recall) / (precision + recall) == (2.0 * tp) / (2.0 * tp + fp + fn)
  {
    var a, b := tp + fn, tp + fp;
    var recall, precision := tp / a, tp / b;
    assert recall * a == tp && precision * b == tp;
    assert recall > 0.0 && precision > 0.0;
    assert precision * recall * (a + b) == tp * (precision + recall);
    CrossDivide(2.0 * (precision * recall), precision + recall, 2.0 * tp, a + b);
  }

  lemma CrossDivide(a: real, b: real, c: real, d: real)
    requires b > 0.0 && d > 0.0 && a * d == c * b
    ensures a / b == c / d
  {
    assert (a / b) * b == a && (c / d) * d == c;
    assert (a / b - c / d) * (b * d) == 0.0;
  }

  /** Recall, precision and their harmonic mean; zero without true positives. */
  method ScoreCounts(tp: nat, fp: nat, fn: nat) returns (fScore: real)
    ensures fScore == F1(tp, fp, fn)
  {
    fScore := 0.0;
    if tp != 0 {
      HarmonicMean(tp as real, fp as real, fn as real);
      var recall := tp as real / (tp + fn) as real;
      var precision := tp as real / (tp + fp) as real;
      fScore := 2.0 * (precision * recall) / (precision + recall);
    }
  }

  /** The part of evaluateJob that scores one class of one table. */
  method ScoreClass(t: Table, n: nat, classIdx: nat) returns (fScore: real, evaluations: nat)
    requires Square(t, n) && classIdx < n
    ensures fScore == ScoreOf(t, n, classIdx) && IsScore(fScore, t, n, classIdx)
    ensures evaluations == Sum(t[classIdx])
  {
    ScoreIs(t, n, classIdx);
    var truePositive := t[classIdx][classIdx];
    var rowSum: nat := 0;
    for i := 0 to n
      invariant rowSum == Sum(t[classIdx][..i])
    {
      assert t[classIdx][..i + 1][..i] == t[classIdx][..i];
      rowSum := rowSum + t[classIdx][i];
    }
    assert t[classIdx][..n] == t[classIdx];
    var falseNegative: nat := rowSum - truePositive;
    var falsePositive: nat := 0;
    ghost var column := Column(t, classIdx);
    for i := 0 to n
      invariant falsePositive == Sum(column[..i])
    {
      assert column[..i + 1][..i] == column[..i];
      falsePositive := falsePositive + t[i][classIdx];
    }
    assert column[..n] == column && column[classIdx] == truePositive;
    falsePositive := falsePositive - truePositive;
    fScore := ScoreCounts(truePositive, falsePositive, falseNegative);
    evaluations := truePositive + falseNegative;
  }

  // ----- All iterations -----

  predicate AllSquare(tables: seq<Table>, n: nat) {
    forall i :: 0 <= i < |tables| ==> Square(tables[i], n)
  }

  function ScoreOf(t: Table, n: nat, c: nat): real
    requires Square(t, n) && c < n
  {
    F1(TruePositives(t, n, c), FalsePositives(t, n, c), FalseNegatives(t, n, c))
  }

  function TotalScore(tables: seq<Table>, n: nat, c: nat): (r: real)
    requires AllSquare(tables, n) && c < n
  {
    if tables == [] then 0.0
    else TotalScore(tables[..|tables| - 1], n, c) + ScoreOf(tables[|tables| - 1], n, c)
  }

  lemma {:induction false} TotalScoreBounds(tables: seq<Table>, n: nat, c: nat)
    requires AllSquare(tables, n) && c < n
    ensures 0.0 <= TotalScore(tables, n, c) <= |tables| as real
  {
    if tables != [] {
      TotalScoreBounds(tables[..|tables| - 1], n, c);
      var t := tables[|tables| - 1];
      F1Bounds(TruePositives(t, n, c), FalsePositives(t, n, c), FalseNegatives(t, n, c));
    }
  }

  /** Scores of further iterations are added; one table counts with its score. */
  lemma {:induction false} TotalScoreJoin(a: seq<Table>, b: seq<Table>, n: nat, c: nat)
    requires AllSquare(a, n) && AllSquare(b, n) && c < n
    ensures AllSquare(a + b, n) && TotalScore(a + b, n, c) == TotalScore(a, n, c) + TotalScore(b, n, c)
    ensures Evaluations(a + b, n, c) == Evaluations(a, n, c) + Evaluations(b, n, c)
    ensures |b| == 1 ==> IsScore(TotalScore(b, n, c), b[0], n, c) && Evaluations(b, n, c) == Sum(b[0][c])
  {
    hide IsScore, F1, Sum;
    if b == [] {
      assert a + b == a;
    } else {
      var front := b[..|b| - 1];
      assert (a + b)[..|a + b| - 1] == a + front;
      TotalScoreJoin(a, front, n, c);
      ScoreIs(b[|b| - 1], n, c);
      assert |b| == 1 ==> front == [];
    }
  }

  lemma OneTable(tables: seq<Table>, n: nat, c: nat)
    requires AllSquare(tables, n) && |tables| == 1 && c < n
    ensures IsScore(TotalScore(tables, n, c) / |tables| as real, tables[0], n, c)
    ensures Evaluations(tables, n, c) == Sum(tables[0][c])
  {
    hide IsScore, TotalScore, Evaluations, Sum;
    TotalScoreJoin([], tables, n, c);
    assert TotalScore(tables, n, c) / |tables| as real == TotalScore(tables, n, c);
  }

  function Evaluations(tables: seq<Table>, n: nat, c: nat): (r: nat)
    requires AllSquare(tables, n) && c < n
  {
    if tables == [] then 0
    else Evaluations(tables[..|tables| - 1], n, c) + Sum(tables[|tables| - 1][c])
  }

  function GrandTotal(tables: seq<Table>): (r: nat) {
    if tables == [] then 0
    else GrandTotal(tables[..|tables| - 1]) + Sum(RowSums(tables[|tables| - 1]))
  }

  /** Over all iterations the per-class counts add up to all classifications made. */
  lemma {:induction false} EvaluationsConserved(tables: seq<Table>, n: nat, counts: seq<nat>)
    requires AllSquare(tables, n) && |counts| == n
    requires forall c :: 0 <= c < n ==> counts[c] == Evaluations(tables, n, c)
    ensures Sum(counts) == GrandTotal(tables)
  {
    if tables == [] {
      SumOfZeros(counts);
    } else {
      var front, last := tables[..|tables| - 1], tables[|tables| - 1];
      var before := seq<nat>(n, c requires 0 <= c < n => Evaluations(front, n, c));
      EvaluationsConserved(front, n, before);
      SumOfSums(before, RowSums(last), counts);
    }
  }

  /** The class loop for one table. */
  method AddScores(t: Table, n: nat, result: array<real>, nbEvalPerClass: array<nat>)
    requires Square(t, n) && result.Length == nbEvalPerClass.Length == n
    modifies result, nbEvalPerClass
    ensures forall c :: 0 <= c < n ==> result[c] == old(result[c]) + ScoreOf(t, n, c)
    ensures forall c :: 0 <= c < n ==> nbEvalPerClass[c] == old(nbEvalPerClass[c]) + Sum(t[c])
  {
    hide F1, Sum;
    for classIdx := 0 to n
      invariant forall c :: classIdx <= c < n ==>
          result[c] == old(result[c]) && nbEvalPerClass[c] == old(nbEvalPerClass[c])
      invariant forall c :: 0 <= c < classIdx ==> result[c] == old(result[c]) + ScoreOf(t, n, c)
      invariant forall c :: 0 <= c < classIdx ==> nbEvalPerClass[c] == old(nbEvalPerClass[c]) + Sum(t[c])
    {
      var fScore, evaluations := ScoreClass(t, n, classIdx);
      result[classIdx] := result[classIdx] + fScore;
      nbEvalPerClass[classIdx] := nbEvalPerClass[classIdx] + evaluations;
    }
  }

  /** The division by the number of iterations. */
  method DivideAll(result: array<real>, n: nat)
    requires n > 0
    modifies result
    ensures forall c :: 0 <= c < result.Length ==> result[c] == old(result[c]) / n as real
  {
    for c := 0 to result.Length
      invariant forall d :: 0 <= d < c ==> result[d] == old(result[d]) / n as real
      invariant forall d :: c <= d < result.Length ==> result[d] == old(result[d])
    {
      result[c] := result[c] / n as real;
    }
  }

  lemma AverageBounds(tables: seq<Table>, n: nat, c: nat)
    requires AllSquare(tables, n) && c < n && |tables| > 0
    ensures 0.0 <= TotalScore(tables, n, c) / |tables| as real <= 1.0
  {
    TotalScoreBounds(tables, n, c);
    QuotientBounds(TotalScore(tables, n, c), |tables| as real);
  }

  /** The scoring of evaluateJob over the tables of its iterations: average F1 score and
      number of evaluations per class. */
  method ScoreAll(tables: seq<Table>, nbActions: nat) returns (result: array<real>, nbEvalPerClass: array<nat>)
    requires AllSquare(tables, nbActions) && |tables| > 0
    ensures result.Length == nbEvalPerClass.Length == nbActions
    ensures forall c :: 0 <= c < nbActions ==>
      && result[c] == TotalScore(tables, nbActions, c) / |tables| as real
      && 0.0 <= result[c] <= 1.0
      && nbEvalPerClass[c] == Evaluations(tables, nbActions, c)
      && (|tables| == 1 ==> IsScore(result[c], tables[0], nbActions, c) && nbEvalPerClass[c] == Sum(tables[0][c]))
    ensures Sum(nbEvalPerClass[..]) == GrandTotal(tables)
  {
    hide F1, Sum, GrandTotal, ScoreOf, IsScore;
    result := new real[nbActions](_ => 0.0);
    nbEvalPerClass := new nat[nbActions](_ => 0);
    for i := 0 to |tables|
      invariant fresh(result) && fresh(nbEvalPerClass)
      invariant forall c :: 0 <= c < nbActions ==> result[c] == TotalScore(tables[..i], nbActions, c)
      invariant forall c :: 0 <= c < nbActions ==> nbEvalPerClass[c] == Evaluations(tables[..i], nbActions, c)
    {
      assert tables[..i + 1][..i] == tables[..i];
      AddScores(tables[i], nbActions, result, nbEvalPerClass);
    }
    assert tables[..|tables|] == tables;
    EvaluationsConserved(tables, nbActions, nbEvalPerClass[..]);
    DivideAll(result, |tables|);
    forall c | 0 <= c < nbActions
      ensures 0.0 <= TotalScore(tables, nbActions, c) / |tables| as real <= 1.0
    {
      AverageBounds(tables, nbActions, c);
    }
    if |tables| == 1 {
      forall c | 0 <= c < nbActions
        ensures IsScore(result[c], tables[0], nbActions, c) && nbEvalPerClass[c] == Sum(tables[0][c])
      {
        OneTable(tables, nbActions, c);
      }
    }
  }
}
