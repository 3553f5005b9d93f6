/**
 * The ranking part of `predict_role` (app.py:42-45): the classifier's
 * probabilities are rounded to three decimals, zipped with the class labels
 * into a dict, and the dict's items are sorted by score, descending, with
 * Python's stable sort. The classifier itself is foreign code: its output
 * reaches this module as a sequence of reals, one per class.
 */
module Ranking {

  type Role = string

  /** One `(class, score)` item of the `scores` dict. */
  datatype Scored = Scored(role: Role, score: real)

  /** Rounding half to even, as numpy's `round` does. */
  function RoundHalfEven(x: real): (r: int)
    ensures r as real - 0.5 <= x <= r as real + 0.5
    ensures (x == r as real - 0.5 || x == r as real + 0.5) ==> r % 2 == 0
  {
    var f := x.Floor;
    var d := x - f as real;
    if d < 0.5 then f
    else if d > 0.5 then f + 1
    else if f % 2 == 0 then f
    else f + 1
  }

  /** `probability.round(3)` for one probability, computed exactly on reals:
      the nearest multiple of 0.001, ties to an even number of thousandths. */
  function Round3(p: real): (r: real)
    ensures -0.0005 <= r - p <= 0.0005
  {
    RoundHalfEven(p * 1000.0) as real / 1000.0
  }

  lemma RoundHalfEvenMonotone(x: real, y: real)
    requires x <= y
    ensures RoundHalfEven(x) <= RoundHalfEven(y)
  {
  }

  /** Rounding never reverses the order of two probabilities. */
  lemma Round3Monotone(p: real, q: real)
    requires p <= q
    ensures Round3(p) <= Round3(q)
  {
    RoundHalfEvenMonotone(p * 1000.0, q * 1000.0);
  }

  /** `probability.round(3)`, element by element. */
  function RoundAll(probs: seq<real>): (r: seq<real>)
    ensures |r| == |probs|
    ensures forall i :: 0 <= i < |probs| ==> r[i] == Round3(probs[i])
    ensures forall i :: 0 <= i < |probs| ==> -0.0005 <= r[i] - probs[i] <= 0.0005
  {
    seq(|probs|, i requires 0 <= i < |probs| => Round3(probs[i]))
  }

  /** `zip(labels, values)`, which stops at the shorter input. */
  /** Rounding every probability keeps their order: a smaller probability never
      gets a larger rounded value. */
  lemma RoundAllOrder(probs: seq<real>)
    ensures forall i, j :: 0 <= i < |probs| && 0 <= j < |probs| && probs[i] <= probs[j] ==>
      RoundAll(probs)[i] <= RoundAll(probs)[j]
  {
    forall i, j | 0 <= i < |probs| && 0 <= j < |probs| && probs[i] <= probs[j]
      ensures RoundAll(probs)[i] <= RoundAll(probs)[j]
    {
      Round3Monotone(probs[i], probs[j]);
    }
  }

  function Zip(labels: seq<Role>, values: seq<real>): (r: seq<Scored>)
    ensures |r| == if |labels| <= |values| then |labels| else |values|
    ensures forall i :: 0 <= i < |r| ==> r[i] == Scored(labels[i], values[i])
  {
    var n := if |labels| <= |values| then |labels| else |values|;
    seq(n, i requires 0 <= i < n => Scored(labels[i], values[i]))
  }

  /** The labels of a list of scored items, in order. */
  function RoleList(s: seq<Scored>): (r: seq<Role>)
    ensures |r| == |s|
    ensures forall i :: 0 <= i < |s| ==> r[i] == s[i].role
  {
    seq(|s|, i requires 0 <= i < |s| => s[i].role)
  }

  /** Round trip: zipping labels with equally many values and taking the pairs
      apart again gives back the labels and the values. */
  lemma ZipUnzip(labels: seq<Role>, values: seq<real>)
    requires |labels| == |values|
    ensures RoleList(Zip(labels, values)) == labels
    ensures Scores(Zip(labels, values)) == values
  {
    var z := Zip(labels, values);
    assert forall i :: 0 <= i < |z| ==> RoleList(z)[i] == labels[i];
    assert forall i :: 0 <= i < |z| ==> Scores(z)[i] == values[i];
  }

  predicate Distinct(labels: seq<Role>) {
    forall i, j :: 0 <= i < j < |labels| ==> labels[i] != labels[j]
  }

  predicate DistinctRoles(s: seq<Scored>) {
    forall i, j :: 0 <= i < j < |s| ==> s[i].role != s[j].role
  }

  function Roles(s: seq<Scored>): set<Role> {
    set i | 0 <= i < |s| :: s[i].role
  }

  /** `d[e.role] = e.score` on a dict given by its items in insertion order:
      an existing key keeps its position and takes the new value, a new key is appended. */
  function DictSet(items: seq<Scored>, e: Scored): (r: seq<Scored>)
    ensures e in r
    ensures forall y :: y in r ==> y == e || y in items
  {
    if items == [] then [e]
    else if items[0].role == e.role then [e] + items[1..]
    else [items[0]] + DictSet(items[1..], e)
  }

  lemma RolesOfCons(y: Scored, s: seq<Scored>)
    ensures Roles([y] + s) == {y.role} + Roles(s)
  {
    var t := [y] + s;
    forall l | l in Roles(t) ensures l in {y.role} + Roles(s) {
      var i :| 0 <= i < |t| && t[i].role == l;
      if i > 0 { assert s[i - 1].role == l; }
    }
    forall l | l in Roles(s) ensures l in Roles(t) {
      var i :| 0 <= i < |s| && s[i].role == l;
      assert t[i + 1].role == l;
    }
    assert t[0].role == y.role;
  }

  /** Setting a key adds it to the dict's keys and keeps every key once. */
  lemma {:induction false} DictSetKeys(items: seq<Scored>, e: Scored)
    ensures Roles(DictSet(items, e)) == Roles(items) + {e.role}
    ensures DistinctRoles(items) ==> DistinctRoles(DictSet(items, e))
    decreases |items|
  {
    if items != [] {
      var rest := items[1..];
      assert items == [items[0]] + rest;
      RolesOfCons(items[0], rest);
      if items[0].role == e.role {
        RolesOfCons(e, rest);
      } else {
        DictSetKeys(rest, e);
        RolesOfCons(items[0], DictSet(rest, e));
        var r := DictSet(items, e);
        if DistinctRoles(items) {
          forall j | 0 < j < |r| ensures r[0].role != r[j].role {
            assert r[j] in DictSet(rest, e);
          }
        }
      }
    }
  }

  /** `dict(pairs).items()`: one item per key, in order of first insertion, holding the last value. */
  function DictItems(pairs: seq<Scored>): seq<Scored> {
    if pairs == [] then []
    else DictSet(DictItems(pairs[..|pairs| - 1]), pairs[|pairs| - 1])
  }

  /** The dict holds every key of the pairs, each exactly once. */
  lemma {:induction false} DictItemsKeys(pairs: seq<Scored>)
    ensures DistinctRoles(DictItems(pairs))
    ensures Roles(DictItems(pairs)) == Roles(pairs)
    decreases |pairs|
  {
    if pairs != [] {
      var n := |pairs| - 1;
      DictItemsKeys(pairs[..n]);
      DictSetKeys(DictItems(pairs[..n]), pairs[n]);
      assert pairs == pairs[..n] + [pairs[n]];
      assert Roles(pairs) == Roles(pairs[..n]) + {pairs[n].role} by {
        forall l | l in Roles(pairs) ensures l in Roles(pairs[..n]) + {pairs[n].role} {
          var i :| 0 <= i < |pairs| && pairs[i].role == l;
          if i < n { assert pairs[..n][i].role == l; }
        }
        forall l | l in Roles(pairs[..n]) ensures l in Roles(pairs) {
          var i :| 0 <= i < n && pairs[..n][i].role == l;
          assert pairs[i].role == l;
        }
      }
    }
  }

  /** Scores never increase from one item to any later one. */
  predicate NonIncreasing(s: seq<Scored>) {
    forall i, j :: 0 <= i < j < |s| ==> s[i].score >= s[j].score
  }

  /** The items of `s` whose score is `x`, in their order in `s`. */
  function WithScore(s: seq<Scored>, x: real): seq<Scored> {
    if s == [] then []
    else (if s[0].score == x then [s[0]] else []) + WithScore(s[1..], x)
  }

  /** Inserts `e` into a non-increasing list in front of every item whose score is not above its own. */
  function Insert(e: Scored, sorted: seq<Scored>): (r: seq<Scored>)
    requires NonIncreasing(sorted)
    ensures multiset(r) == multiset(sorted) + multiset{e}
    ensures NonIncreasing(r)
  {
    if sorted == [] || e.score >= sorted[0].score then
      [e] + sorted
    else
      var rest := Insert(e, sorted[1..]);
      InsertBehind(e, sorted, rest);
      [sorted[0]] + rest
  }

  /** The step of `Insert` that passes an item with a higher score. */
  lemma InsertBehind(e: Scored, sorted: seq<Scored>, rest: seq<Scored>)
    requires NonIncreasing(sorted) && sorted != [] && e.score < sorted[0].score
    requires multiset(rest) == multiset(sorted[1..]) + multiset{e} && NonIncreasing(rest)
    ensures multiset([sorted[0]] + rest) == multiset(sorted) + multiset{e}
    ensures NonIncreasing([sorted[0]] + rest)
  {
    assert sorted == [sorted[0]] + sorted[1..];
    var r := [sorted[0]] + rest;
    forall i, j | 0 <= i < j < |r| ensures r[i].score >= r[j].score {
      if i == 0 {
        assert r[j] == rest[j - 1];
        assert r[j] in multiset(rest);
        if r[j] != e {
          var k :| 0 <= k < |sorted[1..]| && sorted[1..][k] == r[j];
          assert sorted[k + 1] == r[j];
        }
      } else {
        assert r[i] == rest[i - 1] && r[j] == rest[j - 1];
      }
    }
  }

  lemma WithScoreCons(y: Scored, rest: seq<Scored>, x: real)
    ensures WithScore([y] + rest, x) == (if y.score == x then [y] else []) + WithScore(rest, x)
  {
    assert ([y] + rest)[1..] == rest;
  }

  /** `e` lands in front of the items with its own score and after every item with a higher one. */
  lemma {:induction false} InsertWithScore(e: Scored, sorted: seq<Scored>, x: real)
    requires NonIncreasing(sorted)
    ensures WithScore(Insert(e, sorted), x) == (if e.score == x then [e] else []) + WithScore(sorted, x)
    decreases |sorted|
  {
    if sorted == [] || e.score >= sorted[0].score {
      WithScoreCons(e, sorted, x);
    } else {
      var rest := Insert(e, sorted[1..]);
      assert Insert(e, sorted) == [sorted[0]] + rest;
      InsertWithScore(e, sorted[1..], x);
      WithScoreCons(sorted[0], rest, x);
      WithScoreCons(sorted[0], sorted[1..], x);
      assert sorted == [sorted[0]] + sorted[1..];
      if e.score == x {
        assert sorted[0].score != x;
        assert WithScore(Insert(e, sorted), x) == WithScore(rest, x);
        assert WithScore(sorted, x) == WithScore(sorted[1..], x);
      } else {
        assert WithScore(rest, x) == WithScore(sorted[1..], x);
      }
    }
  }

  lemma {:induction false} InsertDistinct(e: Scored, sorted: seq<Scored>)
    requires NonIncreasing(sorted)
    requires DistinctRoles(sorted)
    requires forall y :: y in sorted ==> y.role != e.role
    ensures DistinctRoles(Insert(e, sorted))
    decreases |sorted|
  {
    if !(sorted == [] || e.score >= sorted[0].score) {
      var rest := Insert(e, sorted[1..]);
      InsertDistinct(e, sorted[1..]);
      var r := [sorted[0]] + rest;
      forall j | 0 < j < |r| ensures r[0].role != r[j].role {
        assert r[j] in multiset(rest);
      }
    }
  }

  /** `sorted(items, key=lambda x: x[1], reverse=True)`: Python's stable sort, descending. */
  function SortDescending(s: seq<Scored>): (r: seq<Scored>)
    ensures multiset(r) == multiset(s)
    ensures NonIncreasing(r)
  {
    if s == [] then []
    else
      assert s == [s[0]] + s[1..];
      Insert(s[0], SortDescending(s[1..]))
  }

  /** The sort is stable: the items with any one score come out in their input order. */
  lemma {:induction false} SortDescendingStable(s: seq<Scored>, x: real)
    ensures WithScore(SortDescending(s), x) == WithScore(s, x)
    decreases |s|
  {
    if s != [] {
      SortDescendingStable(s[1..], x);
      InsertWithScore(s[0], SortDescending(s[1..]), x);
    }
  }

  /** Sorting keeps every key once. */
  lemma {:induction false} SortDescendingDistinct(s: seq<Scored>)
    requires DistinctRoles(s)
    ensures DistinctRoles(SortDescending(s))
    decreases |s|
  {
    if s != [] {
      var rest := SortDescending(s[1..]);
      SortDescendingDistinct(s[1..]);
      forall y | y in rest ensures y.role != s[0].role {
        assert y in multiset(s[1..]);
        var j :| 0 <= j < |s[1..]| && s[1..][j] == y;
        assert s[j + 1] == y;
      }
      InsertDistinct(s[0], rest);
    }
  }

  /** numpy's `argmax`: the first index holding a largest value. */
  function ArgMax(values: seq<real>): (k: nat)
    requires |values| > 0
    ensures k < |values|
    ensures forall j :: 0 <= j < |values| ==> values[j] <= values[k]
    ensures forall j :: 0 <= j < k ==> values[j] < values[k]
  {
    if |values| == 1 then 0
    else
      var n := |values| - 1;
      var k := ArgMax(values[..n]);
      if values[n] > values[k] then n else k
  }

  function Scores(s: seq<Scored>): (r: seq<real>)
    ensures |r| == |s|
    ensures forall i :: 0 <= i < |s| ==> r[i] == s[i].score
  {
    seq(|s|, i requires 0 <= i < |s| => s[i].score)
  }

  lemma {:induction false} WithScoreFirst(s: seq<Scored>, k: nat)
    requires k < |s|
    requires forall j :: 0 <= j < k ==> s[j].score != s[k].score
    ensures |WithScore(s, s[k].score)| > 0 && WithScore(s, s[k].score)[0] == s[k]
    decreases k
  {
    if k > 0 {
      WithScoreFirst(s[1..], k - 1);
    }
  }

  /** The first item of a descending sort carries the largest score. */
  lemma SortedFirstScore(s: seq<Scored>)
    requires |s| > 0
    ensures |SortDescending(s)| == |s|
    ensures SortDescending(s)[0].score == s[ArgMax(Scores(s))].score
  {
    var r := SortDescending(s);
    var k := ArgMax(Scores(s));
    assert |r| == |multiset(r)| == |s|;
    assert r[0].score <= s[k].score by {
      assert r[0] in multiset(s);
      var i :| 0 <= i < |s| && s[i] == r[0];
      assert Scores(s)[i] <= Scores(s)[k];
    }
    assert r[0].score >= s[k].score by {
      assert s[k] in multiset(r);
      var j :| 0 <= j < |r| && r[j] == s[k];
    }
  }

  /** The first item of a stable descending sort is the first item of the
      input that holds the largest score. */
  lemma SortedTop(s: seq<Scored>)
    requires |s| > 0
    ensures |SortDescending(s)| == |s|
    ensures SortDescending(s)[0] == s[ArgMax(Scores(s))]
  {
    var r := SortDescending(s);
    var k := ArgMax(Scores(s));
    var m := s[k].score;
    SortedFirstScore(s);
    SortDescendingStable(s, m);
    WithScoreFirst(s, k);
    assert WithScore(r, m)[0] == r[0];
  }

  /** Sorting classes zipped with values puts the class at the values' argmax first. */
  lemma SortedZipTop(classes: seq<Role>, values: seq<real>)
    requires |classes| == |values| > 0
    ensures |SortDescending(Zip(classes, values))| == |classes|
    ensures SortDescending(Zip(classes, values))[0] == Scored(classes[ArgMax(values)], values[ArgMax(values)])
  {
    var pairs := Zip(classes, values);
    assert Scores(pairs) == values;
    SortedTop(pairs);
  }

  /** `ranked` in `predict_role` (app.py:44-45). */
  function Ranked(classes: seq<Role>, probs: seq<real>): seq<Scored> {
    SortDescending(DictItems(Zip(classes, RoundAll(probs))))
  }

  /** `model.predict(vector)[0]`, taken to be the class at numpy's argmax of the
      unrounded distribution that `predict_proba` returns. */
  function Predict(classes: seq<Role>, probs: seq<real>): (r: Role)
    requires |classes| == |probs| > 0
    ensures r in classes
  {
    classes[ArgMax(probs)]
  }

  lemma {:induction false} DictSetNewRole(items: seq<Scored>, e: Scored)
    requires e.role !in Roles(items)
    ensures DictSet(items, e) == items + [e]
    decreases |items|
  {
    if items != [] {
      assert items[0].role in Roles(items);
      assert Roles(items[1..]) <= Roles(items) by {
        forall l | l in Roles(items[1..]) ensures l in Roles(items) {
          var i :| 0 <= i < |items[1..]| && items[1..][i].role == l;
          assert items[i + 1].role == l;
        }
      }
      DictSetNewRole(items[1..], e);
    }
  }

  /** With distinct keys, `dict(pairs).items()` gives back the pairs in their order. */
  lemma {:induction false} DictItemsOfDistinct(pairs: seq<Scored>)
    requires DistinctRoles(pairs)
    ensures DictItems(pairs) == pairs
    decreases |pairs|
  {
    if pairs != [] {
      var n := |pairs| - 1;
      DictItemsOfDistinct(pairs[..n]);
      assert pairs[n].role !in Roles(pairs[..n]);
      DictSetNewRole(pairs[..n], pairs[n]);
    }
  }

  /** `ranked` holds exactly one item per class, the class with its rounded
      probability; scores never increase along it, and classes with equal
      scores keep their `classes_` order. */
  lemma RankedOnePerClass(classes: seq<Role>, probs: seq<real>)
    requires Distinct(classes) && |classes| == |probs|
    ensures var r := Ranked(classes, probs);
      var pairs := Zip(classes, RoundAll(probs));
      && |r| == |classes|
      && multiset(r) == multiset(pairs)
      && DistinctRoles(r)
      && (forall i :: 0 <= i < |classes| ==> Scored(classes[i], Round3(probs[i])) in r)
      && NonIncreasing(r)
      && (forall x :: WithScore(r, x) == WithScore(pairs, x))
  {
    var pairs := Zip(classes, RoundAll(probs));
    DictItemsOfDistinct(pairs);
    var r := Ranked(classes, probs);
    assert |r| == |multiset(r)| == |pairs|;
    SortDescendingDistinct(pairs);
    forall x ensures WithScore(r, x) == WithScore(pairs, x) {
      SortDescendingStable(pairs, x);
    }
    forall i | 0 <= i < |classes| ensures Scored(classes[i], Round3(probs[i])) in r {
      assert pairs[i] in multiset(r);
    }
  }

  /** `ranked[0]` holds the largest rounded score, and belongs to the first
      class (in `classes_` order) that rounds to it. */
  lemma RankedTop(classes: seq<Role>, probs: seq<real>)
    requires Distinct(classes) && |classes| == |probs| > 0
    ensures var r := Ranked(classes, probs);
      var q := ArgMax(RoundAll(probs));
      && |r| == |classes|
      && r[0] == Scored(classes[q], Round3(probs[q]))
      && forall i :: 0 <= i < |r| ==> r[i].score <= r[0].score
  {
    var pairs := Zip(classes, RoundAll(probs));
    assert DistinctRoles(pairs) by {
      forall i, j | 0 <= i < j < |pairs| ensures pairs[i].role != pairs[j].role {
        assert pairs[i].role == classes[i] && pairs[j].role == classes[j];
      }
    }
    DictItemsOfDistinct(pairs);
    var r := SortDescending(pairs);
    assert Ranked(classes, probs) == r;
    SortedZipTop(classes, RoundAll(probs));
    forall i | 0 < i < |r| ensures r[i].score <= r[0].score {
      assert NonIncreasing(r);
    }
  }

  /** Rounding moves the first maximum no later, keeps its value, and moves it
      earlier exactly when an earlier probability rounds to the same value. */
  lemma ArgMaxOfRounded(probs: seq<real>)
    requires |probs| > 0
    ensures var p := ArgMax(probs);
      var q := ArgMax(RoundAll(probs));
      && q <= p
      && Round3(probs[q]) == Round3(probs[p])
      && (q == p <==> forall i :: 0 <= i < p ==> Round3(probs[i]) != Round3(probs[p]))
  {
    var rounded := RoundAll(probs);
    var p := ArgMax(probs);
    var q := ArgMax(rounded);
    forall j | 0 <= j < |probs| ensures rounded[j] <= rounded[p] {
      Round3Monotone(probs[j], probs[p]);
    }
    assert rounded[q] == rounded[p];
    if exists i :: 0 <= i < p && Round3(probs[i]) == Round3(probs[p]) {
      var i :| 0 <= i < p && Round3(probs[i]) == Round3(probs[p]);
      assert rounded[i] == rounded[q];
      assert q <= i;
    }
  }

  /** The predicted class and `ranked[0]` come from the unrounded and the
      rounded distribution. Rounding keeps the predicted class's score at the
      top, but the two labels differ exactly when an earlier class rounds to
      the same top value. */
  lemma PredictionVersusTop(classes: seq<Role>, probs: seq<real>)
    requires Distinct(classes) && |classes| == |probs| > 0
    ensures var r := Ranked(classes, probs);
      var p := ArgMax(probs);
      && |r| == |classes|
      && r[0].score == Round3(probs[p])
      && (r[0].role == Predict(classes, probs) <==> forall i :: 0 <= i < p ==> Round3(probs[i]) != Round3(probs[p]))
  {
    var p := ArgMax(probs);
    var q := ArgMax(RoundAll(probs));
    RankedTop(classes, probs);
    ArgMaxOfRounded(probs);
    assert classes[q] == classes[p] <==> q == p;
  }

  lemma BothRoundToHalf()
    ensures Round3(0.4996) == 0.5 && Round3(0.5004) == 0.5
  {
    assert RoundHalfEven(499.6) == 500;
    assert RoundHalfEven(500.4) == 500;
  }

  /** Two classes at 0.4996 and 0.5004: the model predicts the second, both
      round to 0.5, and the stable sort puts the first on top. */
  lemma TopCanDifferFromPrediction()
    ensures Predict(["React_Developer", "SQL_Developer"], [0.4996, 0.5004]) == "SQL_Developer"
    ensures Ranked(["React_Developer", "SQL_Developer"], [0.4996, 0.5004])[0].role == "React_Developer"
  {
    var classes: seq<Role> := ["React_Developer", "SQL_Developer"];
    var probs := [0.4996, 0.5004];
    BothRoundToHalf();
    assert ArgMax(probs) == 1 by {
      assert probs[..1] == [0.4996];
    }
    assert Distinct(classes);
    PredictionVersusTop(classes, probs);
    RankedTop(classes, probs);
  }

  /** The rounded view of a list: each label with its score rounded to three decimals. */
  function RoundScores(s: seq<Scored>): (r: seq<Scored>)
    ensures |r| == |s|
    ensures forall i :: 0 <= i < |s| ==> r[i] == Scored(s[i].role, Round3(s[i].score))
  {
    seq(|s|, i requires 0 <= i < |s| => Scored(s[i].role, Round3(s[i].score)))
  }

  /** Rounding the scores keeps every label in its place and keeps a
      non-increasing list non-increasing. */
  lemma RoundScoresKeepsOrder(s: seq<Scored>)
    ensures RoleList(RoundScores(s)) == RoleList(s)
    ensures NonIncreasing(s) ==> NonIncreasing(RoundScores(s))
  {
    var r := RoundScores(s);
    assert forall i :: 0 <= i < |s| ==> RoleList(r)[i] == RoleList(s)[i];
    if NonIncreasing(s) {
      forall i, j | 0 <= i < j < |r| ensures r[i].score >= r[j].score {
        Round3Monotone(s[j].score, s[i].score);
      }
    }
  }

  /** The ranking sorted on the unrounded probabilities and rounded afterwards
      for display, so that rounding is presentation only. */
  function RankedByProbability(classes: seq<Role>, probs: seq<real>): seq<Scored> {
    RoundScores(SortDescending(DictItems(Zip(classes, probs))))
  }

  /** Sorted on unrounded probabilities, the top entry is always the predicted
      class, with the largest rounded score, and the rounded scores still never increase. */
  lemma RankedByProbabilityTop(classes: seq<Role>, probs: seq<real>)
    requires Distinct(classes) && |classes| == |probs| > 0
    ensures var r := RankedByProbability(classes, probs);
      && |r| == |classes|
      && r[0].role == Predict(classes, probs)
      && r[0].score == Round3(probs[ArgMax(probs)])
      && (forall i :: 0 <= i < |classes| ==> Round3(probs[i]) <= r[0].score)
      && NonIncreasing(r)
  {
    var pairs := Zip(classes, probs);
    DictItemsOfDistinct(pairs);
    var sorted := SortDescending(pairs);
    SortedZipTop(classes, probs);
    var r := RoundScores(sorted);
    assert RankedByProbability(classes, probs) == r;
    assert r[0] == Scored(pairs[ArgMax(probs)].role, Round3(pairs[ArgMax(probs)].score));
    RoundScoresKeepsOrder(sorted);
    forall i | 0 <= i < |classes| ensures Round3(probs[i]) <= r[0].score {
      Round3Monotone(probs[i], probs[ArgMax(probs)]);
    }
  }

  /** Rounding the scores of two lists with the same items gives lists with the same items. */
  lemma RoundScoresElements(s: seq<Scored>, t: seq<Scored>)
    requires multiset(s) == multiset(t)
    ensures forall e :: e in RoundScores(s) ==> e in RoundScores(t)
  {
    forall e | e in RoundScores(s) ensures e in RoundScores(t) {
      var k :| 0 <= k < |s| && RoundScores(s)[k] == e;
      assert s[k] in multiset(t);
      var j :| 0 <= j < |t| && t[j] == s[k];
      assert RoundScores(t)[j] == e;
    }
  }

  /** The corrected ranking shows the same entries as `ranked` as written, one per
      class with its rounded probability; only their order can differ. */
  lemma RankedByProbabilityOnePerClass(classes: seq<Role>, probs: seq<real>)
    requires Distinct(classes) && |classes| == |probs|
    ensures var r := RankedByProbability(classes, probs);
      && |r| == |classes|
      && DistinctRoles(r)
      && (forall e :: e in r <==> e in Zip(classes, RoundAll(probs)))
      && (forall e :: e in r <==> e in Ranked(classes, probs))
  {
    var pairs := Zip(classes, probs);
    DictItemsOfDistinct(pairs);
    var sorted := SortDescending(pairs);
    SortDescendingDistinct(pairs);
    var r := RoundScores(sorted);
    assert RankedByProbability(classes, probs) == r;
    assert |sorted| == |multiset(sorted)| == |pairs|;
    RoundScoresElements(sorted, pairs);
    RoundScoresElements(pairs, sorted);
    assert RoundScores(pairs) == Zip(classes, RoundAll(probs));
    RankedOnePerClass(classes, probs);
    forall e ensures e in Ranked(classes, probs) <==> e in Zip(classes, RoundAll(probs)) {
      assert e in Ranked(classes, probs) <==> e in multiset(Ranked(classes, probs));
    }
    forall i, j | 0 <= i < j < |r| ensures r[i].role != r[j].role {
      assert sorted[i].role != sorted[j].role;
    }
  }

  /** The labels in the corrected ranking are exactly the classes. */
  lemma RankedByProbabilityRoles(classes: seq<Role>, probs: seq<real>)
    requires Distinct(classes) && |classes| == |probs|
    ensures forall c :: c in Roles(RankedByProbability(classes, probs)) <==> c in classes
  {
    var r := RankedByProbability(classes, probs);
    var rounded := Zip(classes, RoundAll(probs));
    RankedByProbabilityOnePerClass(classes, probs);
    forall c | c in Roles(r) ensures c in classes {
      var k :| 0 <= k < |r| && r[k].role == c;
      assert r[k] in rounded;
      var i :| 0 <= i < |rounded| && rounded[i] == r[k];
      assert classes[i] == c;
    }
    forall c | c in classes ensures c in Roles(r) {
      var i :| 0 <= i < |classes| && classes[i] == c;
      assert rounded[i] in r;
      var k :| 0 <= k < |r| && r[k] == rounded[i];
      assert r[k].role == c;
    }
  }

  /** The labels in `ranked` as written are exactly the classes. */
  lemma RankedRoles(classes: seq<Role>, probs: seq<real>)
    requires Distinct(classes) && |classes| == |probs|
    ensures forall c :: c in Roles(Ranked(classes, probs)) <==> c in classes
  {
    var r := Ranked(classes, probs);
    var rounded := Zip(classes, RoundAll(probs));
    RankedOnePerClass(classes, probs);
    forall c | c in Roles(r) ensures c in classes {
      var k :| 0 <= k < |r| && r[k].role == c;
      assert r[k] in multiset(rounded);
      var i :| 0 <= i < |rounded| && rounded[i] == r[k];
      assert classes[i] == c;
    }
    forall c | c in classes ensures c in Roles(r) {
      var i :| 0 <= i < |classes| && classes[i] == c;
      assert Scored(classes[i], Round3(probs[i])) in r;
      var k :| 0 <= k < |r| && r[k] == Scored(classes[i], Round3(probs[i]));
      assert r[k].role == c;
    }
  }
}
