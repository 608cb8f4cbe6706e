/** The decimation of a generation: which roots are marked for preservation, by class and by
    general score, and what is removed. */
module Decimation {
  import opened Products

  datatype Vertex = Vertex(id: nat)

  datatype Evaluation =
    | General(result: real)
    | Classification(result: real, scorePerClass: seq<real>)

  /** One element of the results, a multimap in ascending order of the general result. */
  datatype Entry = Entry(eval: Evaluation, root: Vertex)

  predicate Ascending(results: seq<Entry>) {
    forall i, j :: 0 <= i < j < |results| ==> results[i].eval.result <= results[j].eval.result
  }

  predicate DistinctRoots(results: seq<Entry>) {
    forall i, j :: 0 <= i < j < |results| ==> results[i].root != results[j].root
  }

  /** Every evaluation is per class and has a score for each of the `n` classes. */
  predicate Scored(results: seq<Entry>, n: nat) {
    forall i :: 0 <= i < |results| ==> results[i].eval.Classification? && |results[i].eval.scorePerClass| == n
  }

  function ClassScore(e: Entry, c: nat): real
    requires e.eval.Classification? && c < |e.eval.scorePerClass|
  {
    e.eval.scorePerClass[c]
  }

  function Roots(results: seq<Entry>): (s: set<Vertex>)
    ensures forall v :: v in s <==> exists i :: 0 <= i < |results| && results[i].root == v
  {
    set i | 0 <= i < |results| :: results[i].root
  }

  function AsSet(s: seq<Vertex>): set<Vertex> {
    set v | v in s
  }

  predicate Distinct(s: seq<Vertex>) {
    forall i, j :: 0 <= i < j < |s| ==> s[i] != s[j]
  }

  lemma {:induction false} DistinctCard(s: seq<Vertex>)
    requires Distinct(s)
    ensures |AsSet(s)| == |s|
  {
    if s != [] {
      var front, last := s[..|s| - 1], s[|s| - 1];
      DistinctCard(front);
      assert AsSet(s) == AsSet(front) + {last};
    }
  }

  // ----- Sorting by the score of one class -----

  /** emplace into a multimap: behind every element with the same or a smaller key. */
  function Emplace(s: seq<Entry>, e: Entry, c: nat, n: nat): (r: seq<Entry>)
    requires Scored(s, n) && Scored([e], n) && c < n
    ensures |r| == |s| + 1 && Scored(r, n)
    ensures forall x :: x in r <==> x in s || x == e
  {
    assert [e][0] == e;
    if s == [] || ClassScore(s[|s| - 1], c) <= ClassScore(e, c) then s + [e]
    else Emplace(s[..|s| - 1], e, c, n) + [s[|s| - 1]]
  }

  /** Entry `x` of the results comes before entry `y` in the map of one class: its score is
      lower, or the same and it was emplaced earlier. */
  ghost predicate Comes(results: seq<Entry>, c: nat, n: nat, x: nat, y: nat)
    requires Scored(results, n) && c < n && x < |results| && y < |results|
  {
    || results[x].eval.scorePerClass[c] < results[y].eval.scorePerClass[c]
    || (results[x].eval.scorePerClass[c] == results[y].eval.scorePerClass[c] && x < y)
  }

  /** `place` says which entry of the results each entry of the map is, in the order of the map. */
  ghost predicate Places(place: seq<nat>, sorted: seq<Entry>, results: seq<Entry>, c: nat, n: nat)
    requires Scored(results, n) && c < n
  {
    && |place| == |sorted|
    && (forall a :: 0 <= a < |place| ==> place[a] < |results| && sorted[a] == results[place[a]])
    && (forall a, b :: 0 <= a < b < |place| ==> Comes(results, c, n, place[a], place[b]))
  }

  lemma EmplaceSplit(s: seq<Entry>, e: Entry, c: nat, n: nat)
    requires Scored(s, n) && Scored([e], n) && c < n
    ensures [e][0] == e
    ensures s == [] ==> Emplace(s, e, c, n) == [e]
    ensures s != [] && ClassScore(s[|s| - 1], c) <= ClassScore(e, c) ==> Emplace(s, e, c, n) == s + [e]
    ensures s != [] && ClassScore(s[|s| - 1], c) > ClassScore(e, c) ==>
      Emplace(s, e, c, n) == Emplace(s[..|s| - 1], e, c, n) + [s[|s| - 1]]
  {
    assert [e][0] == e;
  }

  lemma InFront(s: seq<Entry>, k: nat, e: Entry)
    requires s != [] && k < |s|
    ensures s[..|s| - 1][..k] + [e] + s[..|s| - 1][k..] + [s[|s| - 1]] == s[..k] + [e] + s[k..]
  {
    assert s[..|s| - 1][..k] == s[..k] && s[..|s| - 1][k..] + [s[|s| - 1]] == s[k..];
  }

  /** A new entry lands behind all others of its score or lower, which keep their order. */
  lemma {:induction false} EmplaceAt(s: seq<Entry>, e: Entry, c: nat, n: nat) returns (k: nat)
    requires Scored(s, n) && Scored([e], n) && c < n
    ensures k <= |s| && Emplace(s, e, c, n) == s[..k] + [e] + s[k..]
    ensures [e][0] == e && (k > 0 ==> ClassScore(s[k - 1], c) <= ClassScore(e, c))
    ensures forall a :: k <= a < |s| ==> ClassScore(s[a], c) > ClassScore(e, c)
  {
    hide Emplace;
    EmplaceSplit(s, e, c, n);
    if s != [] && ClassScore(s[|s| - 1], c) > ClassScore(e, c) {
      k := EmplaceAt(s[..|s| - 1], e, c, n);
      InFront(s, k, e);
    } else {
      k := |s|;
      assert s[..k] == s && s[k..] == [];
    }
  }

  /** An entry put in between stands in order if it does so with both neighbouring parts. */
  lemma PlacesInsert(place: seq<nat>, s: seq<Entry>, results: seq<Entry>, i: nat, k: nat, c: nat, n: nat)
    requires Scored(results, n) && c < n && i < |results| && Places(place, s, results, c, n) && k <= |s|
    requires forall a :: 0 <= a < k ==> Comes(results, c, n, place[a], i)
    requires forall a :: k <= a < |s| ==> Comes(results, c, n, i, place[a])
    ensures Places(place[..k] + [i] + place[k..], s[..k] + [results[i]] + s[k..], results, c, n)
  {
    hide Comes, Scored;
  }

  /** The places once the next entry of the results is emplaced. */
  lemma EmplacePlaces(place: seq<nat>, s: seq<Entry>, results: seq<Entry>, i: nat, c: nat, n: nat)
      returns (after: seq<nat>)
    requires Scored(results, n) && c < n && i < |results| && Scored(s, n) && Places(place, s, results, c, n)
    requires forall a :: 0 <= a < |place| ==> place[a] < i
    ensures Scored([results[i]], n) && Places(after, Emplace(s, results[i], c, n), results, c, n)
    ensures forall a :: 0 <= a < |after| ==> after[a] <= i
  {
    hide Emplace;
    var e := results[i];
    assert [e][0] == e;
    var k := EmplaceAt(s, e, c, n);
    forall a | 0 <= a < k
      ensures Comes(results, c, n, place[a], i)
    {
      assert a < k - 1 ==> Comes(results, c, n, place[a], place[k - 1]);
    }
    PlacesInsert(place, s, results, i, k, c, n);
    after := place[..k] + [i] + place[k..];
  }

  /** The map sorted by one class: the same entries in ascending order of its score, and in
      the order of the results where scores are equal. */
  ghost predicate SortedFor(sorted: seq<Entry>, results: seq<Entry>, c: nat, n: nat)
    requires Scored(results, n)
  {
    && Scored(sorted, n) && c < n && |sorted| == |results|
    && (exists place :: Places(place, sorted, results, c, n))
    && (forall x :: x in sorted <==> x in results)
  }

  method SortByClass(results: seq<Entry>, c: nat, n: nat) returns (sorted: seq<Entry>)
    requires Scored(results, n) && c < n
    ensures SortedFor(sorted, results, c, n)
  {
    hide Comes, Emplace;
    sorted := [];
    ghost var place: seq<nat> := [];
    for i := 0 to |results|
      invariant Scored(sorted, n) && |sorted| == i && Places(place, sorted, results, c, n)
      invariant forall a :: 0 <= a < |place| ==> place[a] < i
      invariant forall x :: x in sorted <==> x in results[..i]
    {
      var e := results[i];
      assert [e][0] == e;
      place := EmplacePlaces(place, sorted, results, i, c, n);
      sorted := Emplace(sorted, e, c, n);
      assert results[..i + 1] == results[..i] + [e];
    }
    assert results[..|results|] == results;
  }

  // ----- Marking -----

  /** `top` holds `k` roots; every root outside it scores lower in the class than every one
      inside it, or as high but stands before it in the results. */
  ghost predicate IsTop(results: seq<Entry>, c: nat, n: nat, k: nat, top: set<Vertex>)
    requires Scored(results, n) && c < n
  {
    && |top| == k && top <= Roots(results)
    && (forall i, j :: 0 <= i < |results| && 0 <= j < |results| && results[i].root in top && results[j].root !in top ==>
          || results[j].eval.scorePerClass[c] < results[i].eval.scorePerClass[c]
          || (results[j].eval.scorePerClass[c] == results[i].eval.scorePerClass[c] && j < i))
  }

  /** The best `k` roots of a class are all marked. */
  ghost predicate BestKept(results: seq<Entry>, c: nat, n: nat, k: nat, keep: seq<Vertex>)
    requires Scored(results, n) && c < n
  {
    exists top :: IsTop(results, c, n, k, top) && top <= AsSet(keep)
  }

  function LastRoots(sorted: seq<Entry>, k: nat): (s: seq<Vertex>)
    requires k <= |sorted|
    ensures |s| == k && forall i :: 0 <= i < k ==> s[i] == sorted[|sorted| - k + i].root
  {
    seq(k, i requires 0 <= i < k => sorted[|sorted| - k + i].root)
  }

  /** Where an entry stands in the map. */
  lemma PlaceOf(place: seq<nat>, sorted: seq<Entry>, results: seq<Entry>, c: nat, n: nat, i: nat) returns (a: nat)
    requires Scored(results, n) && c < n && DistinctRoots(results) && Places(place, sorted, results, c, n)
    requires i < |results| && results[i] in sorted
    ensures a < |place| && place[a] == i && sorted[a] == results[i]
  {
    a :| 0 <= a < |sorted| && sorted[a] == results[i];
    assert results[place[a]].root == results[i].root;
  }

  lemma PlacesDiffer(place: seq<nat>, sorted: seq<Entry>, results: seq<Entry>, c: nat, n: nat, a: nat, b: nat)
    requires Scored(results, n) && c < n && Places(place, sorted, results, c, n)
    requires a < |place| && b < |place| && place[a] == place[b]
    ensures a == b
  {
  }

  lemma SortedMeans(sorted: seq<Entry>, results: seq<Entry>, c: nat, n: nat)
    requires Scored(results, n) && SortedFor(sorted, results, c, n)
    ensures c < n && |sorted| == |results| && forall x :: x in sorted <==> x in results
    ensures exists place :: Places(place, sorted, results, c, n)
  {
  }

  lemma LastDistinct(place: seq<nat>, sorted: seq<Entry>, results: seq<Entry>, c: nat, n: nat, k: nat)
    requires Scored(results, n) && c < n && DistinctRoots(results) && Places(place, sorted, results, c, n)
    requires k <= |sorted|
    ensures Distinct(LastRoots(sorted, k))
  {
    var last, first := LastRoots(sorted, k), |sorted| - k;
    forall i, j | 0 <= i < j < |last|
      ensures last[i] != last[j]
    {
      assert Comes(results, c, n, place[first + i], place[first + j]);
      assert results[place[first + i]].root == last[i] && results[place[first + j]].root == last[j];
    }
  }

  lemma LastAreTop(results: seq<Entry>, sorted: seq<Entry>, c: nat, n: nat, k: nat)
    requires Scored(results, n) && DistinctRoots(results) && SortedFor(sorted, results, c, n) && k <= |sorted|
    ensures IsTop(results, c, n, k, AsSet(LastRoots(sorted, k)))
  {
    hide Places, SortedFor;
    SortedMeans(sorted, results, c, n);
    var place :| Places(place, sorted, results, c, n);
    var last, first := LastRoots(sorted, k), |sorted| - k;
    var top := AsSet(last);
    LastDistinct(place, sorted, results, c, n, k);
    DistinctCard(last);
    forall v | v in top
      ensures v in Roots(results)
    {
      var i :| 0 <= i < k && last[i] == v;
      assert sorted[first + i] in results;
    }
    forall i, j | 0 <= i < |results| && 0 <= j < |results| && results[i].root in top && results[j].root !in top
      ensures Comes(results, c, n, j, i)
    {
      LastBeats(place, sorted, results, c, n, k, i, j);
    }
  }

  lemma LastBeats(place: seq<nat>, sorted: seq<Entry>, results: seq<Entry>, c: nat, n: nat, k: nat, i: nat, j: nat)
    requires Scored(results, n) && c < n && DistinctRoots(results) && Places(place, sorted, results, c, n)
    requires k <= |sorted| && i < |results| && j < |results| && results[i] in sorted && results[j] in sorted
    requires results[i].root in LastRoots(sorted, k) && results[j].root !in LastRoots(sorted, k)
    ensures Comes(results, c, n, j, i)
  {
    hide Comes, DistinctRoots, Scored;
    var a := PlaceOf(place, sorted, results, c, n, i);
    var b := PlaceOf(place, sorted, results, c, n, j);
    LastIsLate(place, sorted, results, c, n, k, a);
    assert forall x :: |sorted| - k <= x < |sorted| ==> LastRoots(sorted, k)[x - (|sorted| - k)] == sorted[x].root;
  }

  /** A root among the last stands among the last places. */
  lemma LastIsLate(place: seq<nat>, sorted: seq<Entry>, results: seq<Entry>, c: nat, n: nat, k: nat, a: nat)
    requires Scored(results, n) && c < n && DistinctRoots(results) && Places(place, sorted, results, c, n)
    requires k <= |sorted| && a < |sorted| && sorted[a].root in LastRoots(sorted, k)
    ensures a >= |sorted| - k
  {
    var last, first := LastRoots(sorted, k), |sorted| - k;
    var t :| 0 <= t < k && last[t] == sorted[a].root;
    assert results[place[a]].root == results[place[first + t]].root;
    PlacesDiffer(place, sorted, results, c, n, a, first + t);
  }

  /** Marking in order, no root twice, only roots of the results. */
  ghost predicate Marking(keep: seq<Vertex>, results: seq<Entry>) {
    Distinct(keep) && forall v :: v in keep ==> v in Roots(results)
  }

  /** The inner loop of the class phase: the best `k` roots of one sorted map. */
  method KeepBest(results: seq<Entry>, sorted: seq<Entry>, k: nat, before: seq<Vertex>) returns (keep: seq<Vertex>)
    requires k <= |sorted| && Marking(before, results) && forall x :: x in sorted <==> x in results
    ensures Marking(keep, results) && before <= keep && |keep| <= |before| + k
    ensures forall v :: v in LastRoots(sorted, k) ==> v in keep
  {
    keep := before;
    var position := |sorted| - 1;
    for i := 0 to k
      invariant position == |sorted| - 1 - i
      invariant Marking(keep, results) && before <= keep && |keep| <= |before| + i
      invariant forall j :: position < j < |sorted| ==> sorted[j].root in keep
    {
      if sorted[position].root !in keep {
        assert sorted[position] in results;
        keep := keep + [sorted[position].root];
      }
      position := position - 1;
    }
  }

  lemma LastAreKept(results: seq<Entry>, sorted: seq<Entry>, c: nat, n: nat, k: nat, keep: seq<Vertex>)
    requires Scored(results, n) && DistinctRoots(results) && SortedFor(sorted, results, c, n) && k <= |sorted|
    requires forall v :: v in LastRoots(sorted, k) ==> v in keep
    ensures BestKept(results, c, n, k, keep)
  {
    hide IsTop;
    LastAreTop(results, sorted, c, n, k);
    assert AsSet(LastRoots(sorted, k)) <= AsSet(keep);
  }

  lemma BestKeptGrows(results: seq<Entry>, c: nat, n: nat, k: nat, before: seq<Vertex>, keep: seq<Vertex>)
    requires Scored(results, n) && c < n && before <= keep && BestKept(results, c, n, k, before)
    ensures BestKept(results, c, n, k, keep)
  {
    hide IsTop;
    var top :| IsTop(results, c, n, k, top) && top <= AsSet(before);
    assert top <= AsSet(keep);
  }

  lemma AllKeptGrow(results: seq<Entry>, n: nat, k: nat, before: seq<Vertex>, keep: seq<Vertex>)
    requires Scored(results, n) && before <= keep
    requires forall c :: 0 <= c < n ==> BestKept(results, c, n, k, before)
    ensures forall c :: 0 <= c < n ==> BestKept(results, c, n, k, keep)
  {
    hide BestKept;
    forall c | 0 <= c < n
      ensures BestKept(results, c, n, k, keep)
    {
      BestKeptGrows(results, c, n, k, before, keep);
    }
  }

  /** The class phase: the best `k` roots of every class. */
  method KeepPerClass(results: seq<Entry>, nbActions: nat, k: nat) returns (keep: seq<Vertex>)
    requires Scored(results, nbActions) && DistinctRoots(results) && k <= |results|
    ensures Marking(keep, results) && |keep| <= Times(nbActions, k)
    ensures forall c :: 0 <= c < nbActions ==> BestKept(results, c, nbActions, k, keep)
  {
    hide Times, Marking, BestKept, LastRoots, SortedFor, DistinctRoots, Scored;
    keep := [];
    MarkingNothing(results);
    TimesZero(k);
    for classIdx := 0 to nbActions
      invariant Marking(keep, results) && |keep| <= Times(classIdx, k)
      invariant forall c :: 0 <= c < classIdx ==> BestKept(results, c, nbActions, k, keep)
    {
      ghost var before := keep;
      var sorted := SortByClass(results, classIdx, nbActions);
      SameEntries(sorted, results, classIdx, nbActions);
      keep := KeepBest(results, sorted, k, keep);
      LastAreKept(results, sorted, classIdx, nbActions, k, keep);
      TimesGrows(classIdx, classIdx, k);
      forall c | 0 <= c < classIdx
        ensures BestKept(results, c, nbActions, k, keep)
      {
        BestKeptGrows(results, c, nbActions, k, before, keep);
      }
    }
  }

  lemma SameEntries(sorted: seq<Entry>, results: seq<Entry>, c: nat, n: nat)
    requires Scored(results, n) && SortedFor(sorted, results, c, n)
    ensures |sorted| == |results| && forall x :: x in sorted <==> x in results
  {
  }

  lemma MarkingNothing(results: seq<Entry>)
    ensures Marking([], results)
  {
  }

  /** The roots marked by their general score alone are at least half of those kept. */
  lemma GeneralHalf(toKeep: nat, nbActions: nat)
    requires nbActions > 0
    ensures 2 * Times(nbActions, (toKeep / nbActions) / 2) <= toKeep
    ensures (toKeep / nbActions) / 2 <= toKeep
  {
    hide Times;
    var q := toKeep / nbActions;
    DivisionFits(toKeep, nbActions);
    TimesOrder(nbActions, 2 * (q / 2), q);
    TimesOrder(nbActions, q / 2, q / 2);
  }

  /** Every unmarked root stands before every root marked from `from` on, so it has no better
      general score. */
  ghost predicate GeneralBest(results: seq<Entry>, keep: seq<Vertex>, from: nat) {
    forall i, j :: 0 <= i < |results| && 0 <= j < |results| && results[i].root in keep[Min(from, |keep|)..]
                   && results[j].root !in keep
      ==> j < i && results[j].eval.result <= results[i].eval.result
  }

  function Min(a: nat, b: nat): nat {
    if a <= b then a else b
  }

  /** As long as something is unmarked, fewer roots are marked than there are. */
  lemma AllMarked(results: seq<Entry>, keep: seq<Vertex>)
    requires DistinctRoots(results) && Marking(keep, results)
    requires forall i :: 0 <= i < |results| ==> results[i].root in keep
    ensures |keep| == |results|
  {
    var all := LastRoots(results, |results|);
    assert Distinct(all);
    DistinctCard(all);
    DistinctCard(keep);
    assert AsSet(all) == AsSet(keep) by {
      forall v | v in AsSet(keep)
        ensures v in all
      {
        var i :| 0 <= i < |results| && results[i].root == v;
        assert all[i] == v;
      }
    }
  }

  /** The general phase: the best remaining roots until enough are marked. */
  method KeepGeneral(results: seq<Entry>, before: seq<Vertex>, toKeep: nat) returns (keep: seq<Vertex>)
    requires Ascending(results) && DistinctRoots(results) && Marking(before, results)
    requires |before| <= toKeep <= |results|
    ensures Marking(keep, results) && before <= keep && |keep| == toKeep
    ensures GeneralBest(results, keep, |before|)
  {
    keep := before;
    var position := |results| - 1;
    while |keep| < toKeep && position >= 0
      invariant -1 <= position < |results|
      invariant Marking(keep, results) && before <= keep && |keep| <= toKeep
      invariant forall j :: position < j < |results| ==> results[j].root in keep
      invariant forall i :: 0 <= i <= position ==> results[i].root !in keep[|before|..]
    {
      if results[position].root !in keep {
        keep := keep + [results[position].root];
      }
      position := position - 1;
    }
    if position < 0 {
      AllMarked(results, keep);
    }
  }

  // ----- Removal -----

  /** The entries whose root is not among the removed ones, in order. */
  function Without(results: seq<Entry>, gone: set<Vertex>): (r: seq<Entry>)
    ensures forall x :: x in r <==> x in results && x.root !in gone
  {
    if results == [] then []
    else if results[0].root in gone then Without(results[1..], gone)
    else [results[0]] + Without(results[1..], gone)
  }

  lemma {:induction false} WithoutTwice(results: seq<Entry>, gone: set<Vertex>, v: Vertex)
    ensures Without(Without(results, gone), {v}) == Without(results, gone + {v})
  {
    if results != [] {
      WithoutTwice(results[1..], gone, v);
      var rest := Without(results[1..], gone);
      if results[0].root !in gone {
        assert ([results[0]] + rest)[1..] == rest;
      }
    }
  }

  lemma {:induction false} WithoutAbsent(results: seq<Entry>, v: Vertex)
    requires forall i :: 0 <= i < |results| ==> results[i].root != v
    ensures Without(results, {v}) == results
  {
    if results != [] {
      WithoutAbsent(results[1..], v);
    }
  }

  lemma CutBehindFirst(results: seq<Entry>, i: nat)
    requires 0 < i < |results|
    ensures results[..i] + results[i + 1..] == [results[0]] + (results[1..][..i - 1] + results[1..][i..])
  {
    assert results[..i] == [results[0]] + results[1..][..i - 1] && results[i + 1..] == results[1..][i..];
  }

  lemma WithoutFront(results: seq<Entry>, gone: set<Vertex>)
    requires results != []
    ensures Without(results, gone)
      == if results[0].root in gone then Without(results[1..], gone) else [results[0]] + Without(results[1..], gone)
  {
  }

  /** Erasing the one entry of a root. */
  lemma {:induction false} EraseOne(results: seq<Entry>, i: nat)
    requires i < |results| && DistinctRoots(results)
    ensures Without(results, {results[i].root}) == results[..i] + results[i + 1..]
  {
    hide Without;
    WithoutFront(results, {results[i].root});
    if i == 0 {
      WithoutAbsent(results[1..], results[0].root);
    } else {
      EraseOne(results[1..], i - 1);
      CutBehindFirst(results, i);
    }
  }

  lemma {:induction false} WithoutDistinct(results: seq<Entry>, gone: set<Vertex>)
    requires DistinctRoots(results)
    ensures DistinctRoots(Without(results, gone))
  {
    if results != [] {
      WithoutDistinct(results[1..], gone);
      var rest := Without(results[1..], gone);
      forall i | 0 <= i < |rest|
        ensures rest[i].root != results[0].root
      {
        assert rest[i] in rest;
        var j :| 0 <= j < |results[1..]| && results[1..][j] == rest[i];
        assert results[j + 1] == rest[i];
      }
    }
  }

  lemma WithoutNone(results: seq<Entry>)
    ensures Without(results, {}) == results
  {
    if results != [] {
      WithoutNone(results[1..]);
    }
  }

  lemma ShareBounds(ratio: real, total: real)
    requires 0.0 <= ratio <= 1.0 && total >= 0.0
    ensures 0.0 <= ratio * total <= total
  {
    assert (1.0 - ratio) * total >= 0.0;
  }

  /** What is left of `total` when the whole part of a share goes. */
  function Remaining(share: real, total: nat): (n: nat)
    requires 0.0 <= share <= total as real
    ensures n <= total && (total - n) as real <= share < (total - n) as real + 1.0
  {
    total - share.Floor
  }

  /** All but the deleted share of the roots, rounded in favour of keeping. */
  function NbRootsToKeep(ratio: real, total: nat): (n: nat)
    requires 0.0 <= ratio <= 1.0
    ensures n <= total && (total - n) as real <= ratio * total as real < (total - n) as real + 1.0
  {
    ShareBounds(ratio, total as real);
    Remaining(ratio * total as real, total)
  }

  class ClassificationLearningAgent {
    const nbActions: nat
    const ratioDeletedRoots: real
    const actions: set<Vertex>
    var vertices: set<Vertex>
    var resultsPerRoot: map<Vertex, Evaluation>

    constructor (nbActions: nat, ratioDeletedRoots: real, actions: set<Vertex>, vertices: set<Vertex>)
      ensures this.nbActions == nbActions && this.ratioDeletedRoots == ratioDeletedRoots
      ensures this.actions == actions && this.vertices == vertices && resultsPerRoot == map[]
    {
      this.nbActions, this.ratioDeletedRoots, this.actions := nbActions, ratioDeletedRoots, actions;
      this.vertices, resultsPerRoot := vertices, map[];
    }

    /** The erasing loop: the first entry with the root goes, if there is one. */
    method EraseResult(results: seq<Entry>, v: Vertex) returns (r: seq<Entry>)
      requires DistinctRoots(results)
      ensures r == Without(results, {v})
    {
      r := results;
      var iter := 0;
      while iter < |results|
        invariant iter <= |results| && r == results
        invariant forall j :: 0 <= j < iter ==> results[j].root != v
      {
        if results[iter].root == v {
          EraseOne(results, iter);
          return results[..iter] + results[iter + 1..];
        }
        iter := iter + 1;
      }
      WithoutAbsent(results, v);
    }

    /** Removes every root that is neither an action nor marked. */
    method RemoveOthers(allRoots: seq<Vertex>, keep: seq<Vertex>, results: seq<Entry>) returns (r: seq<Entry>)
      requires DistinctRoots(results)
      modifies this`vertices, this`resultsPerRoot
      ensures var gone := AsSet(allRoots) - actions - AsSet(keep);
        && r == Without(results, gone)
        && vertices == old(vertices) - gone
        && resultsPerRoot == old(resultsPerRoot) - gone
    {
      hide Without, DistinctRoots;
      r := results;
      ghost var gone: set<Vertex> := {};
      WithoutNone(results);
      for i := 0 to |allRoots|
        invariant gone == AsSet(allRoots[..i]) - actions - AsSet(keep)
        invariant r == Without(results, gone)
        invariant vertices == old(vertices) - gone
        invariant resultsPerRoot == old(resultsPerRoot) - gone
      {
        var vert := allRoots[i];
        assert AsSet(allRoots[..i + 1]) == AsSet(allRoots[..i]) + {vert};
        if vert !in actions && vert !in keep {
          vertices := vertices - {vert};
          resultsPerRoot := resultsPerRoot - {vert};
          WithoutDistinct(results, gone);
          WithoutTwice(results, gone, vert);
          r := EraseResult(r, vert);
          gone := gone + {vert};
        }
      }
      assert allRoots[..|allRoots|] == allRoots;
    }

    /** decimateWorstRoots. `perClass` counts the roots the class phase marked. */
    method DecimateWorstRoots(allRoots: seq<Vertex>, results: seq<Entry>)
        returns (ok: bool, remaining: seq<Entry>, keep: seq<Vertex>, perClass: nat)
      requires nbActions > 0 && 0.0 <= ratioDeletedRoots <= 1.0
      requires results != [] && Ascending(results) && DistinctRoots(results)
      requires Distinct(allRoots) && AsSet(allRoots) == Roots(results)
      requires results[0].eval.Classification? ==> Scored(results, nbActions)
      modifies this`vertices, this`resultsPerRoot
      ensures ok <==> results[0].eval.Classification?
      ensures !ok ==> remaining == results && vertices == old(vertices) && resultsPerRoot == old(resultsPerRoot)
      ensures ok ==> Marking(keep, results)
      ensures ok ==> |keep| == NbRootsToKeep(ratioDeletedRoots, |allRoots|)
      ensures ok ==> forall c :: 0 <= c < nbActions ==> BestKept(results, c, nbActions, (|keep| / nbActions) / 2, keep)
      ensures ok ==> perClass <= |keep| && 2 * (|keep| - perClass) >= |keep| && GeneralBest(results, keep, perClass)
      ensures ok ==> var gone := AsSet(allRoots) - actions - AsSet(keep);
          && remaining == Without(results, gone)
          && vertices == old(vertices) - gone && resultsPerRoot == old(resultsPerRoot) - gone
    {
      hide Times, Marking, BestKept, GeneralBest, DistinctRoots, Scored, Without, Ascending, NbRootsToKeep, Distinct;
      remaining, keep, perClass := results, [], 0;
      if results[0].eval.General? {
        return false, remaining, keep, perClass;
      }
      SameCount(allRoots, results);
      var totalNbRoot := |allRoots|;
      var nbRootsToKeep := NbRootsToKeep(ratioDeletedRoots, totalNbRoot);
      var nbRootsKeptPerClass := (nbRootsToKeep / nbActions) / 2;
      GeneralHalf(nbRootsToKeep, nbActions);
      keep := KeepPerClass(results, nbActions, nbRootsKeptPerClass);
      ghost var marked := keep;
      perClass := |keep|;
      keep := KeepGeneral(results, keep, nbRootsToKeep);
      AllKeptGrow(results, nbActions, nbRootsKeptPerClass, marked, keep);
      remaining := RemoveOthers(allRoots, keep, results);
      return true, remaining, keep, perClass;
    }
  }

  lemma SameCount(allRoots: seq<Vertex>, results: seq<Entry>)
    requires Distinct(allRoots) && DistinctRoots(results) && AsSet(allRoots) == Roots(results)
    ensures |allRoots| == |results|
  {
    forall v | v in allRoots
      ensures v in Roots(results)
    {
      assert v in AsSet(allRoots);
    }
    forall i | 0 <= i < |results|
      ensures results[i].root in allRoots
    {
      assert results[i].root in Roots(results);
      assert results[i].root in AsSet(allRoots);
    }
    AllMarked(results, allRoots);
  }
}
