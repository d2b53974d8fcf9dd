/**
 The two fixed threshold tables and the scans that read them. `pointsByHours`
 walks its ascending table and keeps the last rule the value satisfies;
 `pointsByViews` walks its descending table and returns the first rule the value
 satisfies, or 0 when none does. Both amount to "the rule with the largest
 minimum not above the value wins", which the lemmas below establish.
 */
module Scoring {

  datatype Rule = Rule(min: int, points: int)

  /** One rule per whole hour from 1 to 20, worth as many points as hours. */
  const HoursPoints: seq<Rule> := [
    Rule(1, 1), Rule(2, 2), Rule(3, 3), Rule(4, 4), Rule(5, 5),
    Rule(6, 6), Rule(7, 7), Rule(8, 8), Rule(9, 9), Rule(10, 10),
    Rule(11, 11), Rule(12, 12), Rule(13, 13), Rule(14, 14), Rule(15, 15),
    Rule(16, 16), Rule(17, 17), Rule(18, 18), Rule(19, 19), Rule(20, 20)
  ]

  /** View-count rules, highest minimum first; the last one catches fewer than 100 views. */
  const ViewsPoints: seq<Rule> := [
    Rule(3000, 36), Rule(2000, 24), Rule(1000, 12), Rule(800, 10),
    Rule(500, 8), Rule(350, 6), Rule(100, 4), Rule(0, 2)
  ]

  ghost predicate Ascending(table: seq<Rule>) {
    forall i, j :: 0 <= i < j < |table| ==> table[i].min < table[j].min
  }

  ghost predicate Descending(table: seq<Rule>) {
    forall i, j :: 0 <= i < j < |table| ==> table[i].min > table[j].min
  }

  /** A rule with a larger minimum is never worth fewer points. */
  ghost predicate PointsRiseWithMin(table: seq<Rule>) {
    forall i, j :: 0 <= i < |table| && 0 <= j < |table| && table[i].min <= table[j].min ==>
      table[i].points <= table[j].points
  }

  /** Rule `i` is satisfied by `x` and no satisfied rule has a larger minimum. */
  ghost predicate HighestSatisfied(table: seq<Rule>, x: int, i: int) {
    && 0 <= i < |table|
    && table[i].min <= x
    && forall j :: 0 <= j < |table| && table[j].min <= x ==> table[j].min <= table[i].min
  }

  ghost predicate NoneSatisfied(table: seq<Rule>, x: int) {
    forall j :: 0 <= j < |table| ==> table[j].min > x
  }

  /** The loop of `pointsByHours`: every satisfied rule overwrites the running value. */
  function LastSatisfied(table: seq<Rule>, x: int, acc: int): int
    decreases |table|
  {
    if |table| == 0 then acc
    else LastSatisfied(table[1..], x, if x >= table[0].min then table[0].points else acc)
  }

  /** The loop of `pointsByViews`: the first satisfied rule returns at once. */
  function FirstSatisfied(table: seq<Rule>, x: int, fallback: int): int
    decreases |table|
  {
    if |table| == 0 then fallback
    else if x >= table[0].min then table[0].points
    else FirstSatisfied(table[1..], x, fallback)
  }

  function PointsByHours(hours: int): int {
    LastSatisfied(HoursPoints, hours, 0)
  }

  function PointsByViews(views: int): int {
    FirstSatisfied(ViewsPoints, views, 0)
  }

  /** Points of one video: the two sub-scores added, with no cap on the sum. */
  function Award(hours: int, views: int): int {
    PointsByHours(hours) + PointsByViews(views)
  }

  /** On an ascending table the last satisfied rule is the one with the largest satisfied minimum. */
  lemma {:induction false} LastSatisfiedIsHighest(table: seq<Rule>, x: int, acc: int)
    requires Ascending(table)
    ensures NoneSatisfied(table, x) ==> LastSatisfied(table, x, acc) == acc
    ensures forall i :: HighestSatisfied(table, x, i) ==> LastSatisfied(table, x, acc) == table[i].points
    decreases |table|
  {
    if |table| > 0 {
      var tail := table[1..];
      var acc' := if x >= table[0].min then table[0].points else acc;
      assert Ascending(tail) by {
        forall i, j | 0 <= i < j < |tail| ensures tail[i].min < tail[j].min {
          assert tail[i] == table[i + 1] && tail[j] == table[j + 1];
        }
      }
      LastSatisfiedIsHighest(tail, x, acc');
      forall i | HighestSatisfied(table, x, i)
        ensures LastSatisfied(table, x, acc) == table[i].points
      {
        if i == 0 {
          TailUnsatisfied(table, x);
        } else {
          ShiftHighest(table, x, i);
        }
      }
      if NoneSatisfied(table, x) {
        ShiftNone(table, x);
      }
    }
  }

  /** When the head of an ascending table is the highest satisfied rule, nothing after it is satisfied. */
  lemma TailUnsatisfied(table: seq<Rule>, x: int)
    requires Ascending(table) && HighestSatisfied(table, x, 0)
    ensures NoneSatisfied(table[1..], x)
  {
    var tail := table[1..];
    forall j | 0 <= j < |tail| ensures tail[j].min > x {
      assert tail[j] == table[j + 1];
      assert table[0].min < table[j + 1].min;
    }
  }

  lemma ShiftHighest(table: seq<Rule>, x: int, i: int)
    requires 0 < i && HighestSatisfied(table, x, i)
    ensures HighestSatisfied(table[1..], x, i - 1)
  {
    var tail := table[1..];
    forall j | 0 <= j < |tail| && tail[j].min <= x ensures tail[j].min <= tail[i - 1].min {
      assert tail[j] == table[j + 1];
    }
  }

  lemma ShiftNone(table: seq<Rule>, x: int)
    requires |table| > 0 && NoneSatisfied(table, x)
    ensures NoneSatisfied(table[1..], x)
  {
    var tail := table[1..];
    forall j | 0 <= j < |tail| ensures tail[j].min > x {
      assert tail[j] == table[j + 1];
    }
  }

  /** On a descending table the first satisfied rule is the one with the largest satisfied minimum. */
  lemma {:induction false} FirstSatisfiedIsHighest(table: seq<Rule>, x: int, fallback: int)
    requires Descending(table)
    ensures NoneSatisfied(table, x) ==> FirstSatisfied(table, x, fallback) == fallback
    ensures forall i :: HighestSatisfied(table, x, i) ==> FirstSatisfied(table, x, fallback) == table[i].points
    decreases |table|
  {
    if |table| > 0 {
      var tail := table[1..];
      assert Descending(tail) by {
        forall i, j | 0 <= i < j < |tail| ensures tail[i].min > tail[j].min {
          assert tail[i] == table[i + 1] && tail[j] == table[j + 1];
        }
      }
      FirstSatisfiedIsHighest(tail, x, fallback);
      forall i | HighestSatisfied(table, x, i)
        ensures FirstSatisfied(table, x, fallback) == table[i].points
      {
        if x < table[0].min {
          ShiftHighest(table, x, i);
        }
      }
      if NoneSatisfied(table, x) {
        ShiftNone(table, x);
      }
    }
  }

  /** In a descending table, a satisfied rule whose predecessor is not satisfied is the highest one. */
  lemma DescendingHighest(table: seq<Rule>, x: int, i: int)
    requires Descending(table)
    requires 0 <= i < |table| && table[i].min <= x && (i == 0 || table[i - 1].min > x)
    ensures HighestSatisfied(table, x, i)
  {
  }

  lemma HoursPointsShape()
    ensures |HoursPoints| == 20
    ensures forall i :: 0 <= i < 20 ==> HoursPoints[i] == Rule(i + 1, i + 1)
  {
  }

  lemma ViewsPointsShape()
    ensures Descending(ViewsPoints)
    ensures PointsRiseWithMin(ViewsPoints)
  {
  }

  /**
   Hours score: nothing under one hour, one point per whole hour up to 20, and
   20 from then on (the table does not extrapolate).
   */
  lemma PointsByHoursClosedForm(hours: int)
    ensures PointsByHours(hours) == if hours < 1 then 0 else if hours <= 20 then hours else 20
  {
    HoursPointsShape();
    assert Ascending(HoursPoints);
    LastSatisfiedIsHighest(HoursPoints, hours, 0);
    if hours >= 1 {
      var i := if hours <= 20 then hours - 1 else 19;
      assert HighestSatisfied(HoursPoints, hours, i);
    } else {
      assert NoneSatisfied(HoursPoints, hours);
    }
  }

  lemma PointsByHoursMonotone(hours: int, hours': int)
    requires hours <= hours'
    ensures PointsByHours(hours) <= PointsByHours(hours')
  {
    PointsByHoursClosedForm(hours);
    PointsByHoursClosedForm(hours');
  }

  /**
   Views score: for a non-negative count, the points of the rule with the largest
   minimum not above it; only a negative count falls through to 0.
   */
  lemma PointsByViewsIsHighestRule(views: int)
    ensures views >= 0 ==> exists i :: HighestSatisfied(ViewsPoints, views, i) && PointsByViews(views) == ViewsPoints[i].points
    ensures views < 0 <==> PointsByViews(views) == 0
  {
    ViewsPointsShape();
    FirstSatisfiedIsHighest(ViewsPoints, views, 0);
    if views >= 0 {
      var i :=
        if views >= 3000 then 0 else if views >= 2000 then 1 else if views >= 1000 then 2
        else if views >= 800 then 3 else if views >= 500 then 4 else if views >= 350 then 5
        else if views >= 100 then 6 else 7;
      DescendingHighest(ViewsPoints, views, i);
      assert ViewsPoints[i].points > 0;
    } else {
      assert NoneSatisfied(ViewsPoints, views);
    }
  }

  lemma PointsByViewsRange(views: int)
    ensures views >= 0 ==> PointsByViews(views) in {2, 4, 6, 8, 10, 12, 24, 36}
    ensures views >= 3000 ==> PointsByViews(views) == 36
    ensures 0 <= PointsByViews(views) <= 36
  {
    PointsByViewsIsHighestRule(views);
    if views >= 0 {
      var i :| HighestSatisfied(ViewsPoints, views, i) && PointsByViews(views) == ViewsPoints[i].points;
      assert ViewsPoints[i].points in {2, 4, 6, 8, 10, 12, 24, 36};
      if views >= 3000 {
        assert ViewsPoints[0].min <= views;
      }
    }
  }

  lemma PointsByViewsMonotone(views: int, views': int)
    requires views <= views'
    ensures PointsByViews(views) <= PointsByViews(views')
  {
    PointsByViewsRange(views');
    PointsByViewsIsHighestRule(views);
    PointsByViewsIsHighestRule(views');
    if views >= 0 {
      ViewsPointsShape();
      var i :| HighestSatisfied(ViewsPoints, views, i) && PointsByViews(views) == ViewsPoints[i].points;
      var j :| HighestSatisfied(ViewsPoints, views', j) && PointsByViews(views') == ViewsPoints[j].points;
      assert ViewsPoints[i].min <= ViewsPoints[j].min;
    }
  }

  /** A video earns between 0 and 56 points, and at least 2 when its view count is non-negative. */
  lemma AwardBounds(hours: int, views: int)
    ensures 0 <= Award(hours, views) <= 56
    ensures views >= 0 ==> 2 <= Award(hours, views)
  {
    PointsByHoursClosedForm(hours);
    PointsByViewsRange(views);
  }
}
