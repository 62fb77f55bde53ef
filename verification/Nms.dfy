/**
 * Greedy non-maximum suppression, `nms_boxes` of apps/detect-rknn-yolo11/detect-rknn-yolo11.py.
 * Coordinates are reals.
 */
module Nms {

  datatype Box = Box(x1: real, y1: real, x2: real, y2: real)

  function Max(a: real, b: real): real { if a >= b then a else b }
  function Min(a: real, b: real): real { if a <= b then a else b }

  function Area(b: Box): real {
    (b.x2 - b.x1) * (b.y2 - b.y1)
  }

  /** The shared area, widened by the program's hundred-thousandth of a pixel on each axis. */
  function Shared(a: Box, b: Box): real {
    var w := Max(0.0, Min(a.x2, b.x2) - Max(a.x1, b.x1) + 0.00001);
    var h := Max(0.0, Min(a.y2, b.y2) - Max(a.y1, b.y1) + 0.00001);
    w * h
  }

  /** The overlap test a later box must pass; division by zero gives no number and so fails it. */
  predicate Passes(a: Box, b: Box, threshold: real) {
    var whole := Area(a) + Area(b) - Shared(a, b);
    whole != 0.0 && Shared(a, b) / whole <= threshold
  }

  /** Whether index `j` passes the test against kept index `i`. */
  type Test = (nat, nat) -> bool

  function OverlapTest(boxes: seq<Box>, threshold: real): Test {
    (i: nat, j: nat) => i < |boxes| && j < |boxes| && Passes(boxes[i], boxes[j], threshold)
  }

  /** The indexes that pass the test against `i`, in the same order. */
  function Survivors(test: Test, i: nat, order: seq<nat>): (left: seq<nat>)
    ensures |left| <= |order|
  {
    if order == [] then []
    else
      var later := Survivors(test, i, order[1..]);
      if test(i, order[0]) then [order[0]] + later else later
  }

  /** The best index is kept, the ones it suppresses go, and so on. */
  function Greedy(test: Test, order: seq<nat>): seq<nat>
    decreases |order|
  {
    if order == [] then [] else [order[0]] + Greedy(test, Survivors(test, order[0], order[1..]))
  }

  /** `sorted` is what sorting the scores gave, best first. */
  method NmsBoxes(boxes: seq<Box>, sorted: seq<nat>, threshold: real) returns (keep: seq<nat>)
    requires forall i | i in sorted :: i < |boxes|
    ensures keep == Greedy(OverlapTest(boxes, threshold), sorted)
  {
    var test := OverlapTest(boxes, threshold);
    var order: seq<nat> := sorted;
    keep := [];
    while |order| > 0
      invariant keep + Greedy(test, order) == Greedy(test, sorted)
      decreases |order|
    {
      var i := order[0];
      var left := Survivors(test, i, order[1..]);
      assert keep + ([i] + Greedy(test, left)) == (keep + [i]) + Greedy(test, left);
      keep := keep + [i];
      order := left;
    }
    assert keep + [] == keep;
  }

  // ----- an independent account of what is kept -----

  ghost predicate Distinct(order: seq<nat>) {
    forall p, q | 0 <= p < q < |order| :: order[p] != order[q]
  }

  /** `y` stands before `x`. */
  ghost predicate Before(order: seq<nat>, y: nat, x: nat) {
    exists q, p :: 0 <= q < p < |order| && order[q] == y && order[p] == x
  }

  /** No kept index before `x` suppresses it. */
  ghost predicate Undominated(test: Test, order: seq<nat>, keep: set<nat>, x: nat) {
    forall y | y in keep && Before(order, y, x) :: test(y, x)
  }

  /** An index is kept exactly when it passes the test against every kept index before it. */
  ghost predicate KeptIffUndominated(test: Test, order: seq<nat>, keep: set<nat>) {
    && (forall x | x in keep :: x in order)
    && forall x | x in order :: x in keep <==> Undominated(test, order, keep, x)
  }

  ghost function Members(s: seq<nat>): set<nat> {
    set x | x in s
  }

  lemma BeforeSplit(order: seq<nat>, y: nat, x: nat)
    requires order != []
    ensures Before(order, y, x) <==> (order[0] == y && x in order[1..]) || Before(order[1..], y, x)
  {
    var later := order[1..];
    if Before(order, y, x) {
      var q, p :| 0 <= q < p < |order| && order[q] == y && order[p] == x;
      assert later[p - 1] == x;
      if q > 0 { assert later[q - 1] == y; }
    }
    if order[0] == y && x in later {
      var p :| 0 <= p < |later| && later[p] == x;
      assert order[p + 1] == x;
    }
    if Before(later, y, x) {
      var q, p :| 0 <= q < p < |later| && later[q] == y && later[p] == x;
      assert order[q + 1] == y && order[p + 1] == x;
    }
  }

  lemma BeforeMembers(order: seq<nat>, y: nat, x: nat)
    ensures Before(order, y, x) ==> x in order && y in order
  {
  }

  lemma {:induction false} SurvivorsPass(test: Test, i: nat, order: seq<nat>, x: nat)
    ensures x in Survivors(test, i, order) <==> x in order && test(i, x)
  {
    if order != [] {
      SurvivorsPass(test, i, order[1..], x);
    }
  }

  lemma {:induction false} SurvivorsKeepOrder(test: Test, i: nat, order: seq<nat>, y: nat, x: nat)
    ensures Before(Survivors(test, i, order), y, x) <==> Before(order, y, x) && test(i, y) && test(i, x)
  {
    if order == [] {
      BeforeMembers(order, y, x);
    } else {
      var left, later := Survivors(test, i, order), Survivors(test, i, order[1..]);
      SurvivorsKeepOrder(test, i, order[1..], y, x);
      SurvivorsPass(test, i, order[1..], x);
      BeforeSplit(order, y, x);
      if test(i, order[0]) {
        BeforeSplit(left, y, x);
        assert left[1..] == later;
      }
    }
  }

  lemma {:induction false} SurvivorsDistinct(test: Test, i: nat, order: seq<nat>)
    requires Distinct(order)
    ensures Distinct(Survivors(test, i, order))
  {
    if order != [] {
      var later := Survivors(test, i, order[1..]);
      SurvivorsDistinct(test, i, order[1..]);
      SurvivorsPass(test, i, order[1..], order[0]);
      assert order[0] !in order[1..];
      assert order[0] !in later;
    }
  }

  /** What is kept comes from what was offered. */
  lemma {:induction false} GreedyKeepsOffered(test: Test, order: seq<nat>, x: nat)
    ensures x in Greedy(test, order) ==> x in order
    decreases |order|
  {
    if order != [] {
      var left := Survivors(test, order[0], order[1..]);
      GreedyKeepsOffered(test, left, x);
      SurvivorsPass(test, order[0], order[1..], x);
    }
  }

  /** And none of it twice. */
  lemma {:induction false} GreedyDistinct(test: Test, order: seq<nat>)
    requires Distinct(order)
    ensures Distinct(Greedy(test, order))
    decreases |order|
  {
    if order != [] {
      var first, left := order[0], Survivors(test, order[0], order[1..]);
      SurvivorsDistinct(test, first, order[1..]);
      GreedyDistinct(test, left);
      SurvivorsPass(test, first, order[1..], first);
      GreedyKeepsOffered(test, left, first);
      assert first !in Greedy(test, left);
    }
  }

  lemma DominatedByFirst(test: Test, order: seq<nat>, keep: set<nat>, x: nat)
    requires order != [] && order[0] in keep && x in order[1..] && !test(order[0], x)
    ensures !Undominated(test, order, keep, x)
  {
    BeforeSplit(order, order[0], x);
  }

  lemma SameDominators(test: Test, order: seq<nat>, keep: set<nat>, later: set<nat>, x: nat)
    requires order != [] && Distinct(order) && x in order[1..] && test(order[0], x)
    requires keep == {order[0]} + later
    requires forall y | y in later :: y in order[1..] && test(order[0], y)
    ensures Undominated(test, order, keep, x)
       <==> Undominated(test, Survivors(test, order[0], order[1..]), later, x)
  {
    var first, rest := order[0], order[1..];
    forall y | y in later ensures Before(order, y, x) <==> Before(Survivors(test, first, rest), y, x) {
      BeforeSplit(order, y, x);
      SurvivorsKeepOrder(test, first, rest, y, x);
    }
  }

  /** Greedy suppression keeps exactly the indexes no earlier kept one overlaps above the threshold. */
  lemma {:induction false} GreedyIsExact(test: Test, order: seq<nat>)
    requires Distinct(order)
    ensures KeptIffUndominated(test, order, Members(Greedy(test, order)))
    decreases |order|
  {
    var keep := Members(Greedy(test, order));
    forall x ensures x in keep ==> x in order { GreedyKeepsOffered(test, order, x); }
    if order != [] {
      var first, rest := order[0], order[1..];
      var left := Survivors(test, first, rest);
      var later := Members(Greedy(test, left));
      SurvivorsDistinct(test, first, rest);
      GreedyIsExact(test, left);
      assert keep == {first} + later;
      forall y ensures y in left <==> y in rest && test(first, y) { SurvivorsPass(test, first, rest, y); }
      forall x | x in order ensures x in keep <==> Undominated(test, order, keep, x) {
        if x == first {
          NothingBeforeFirst(order);
        } else if test(first, x) {
          SameDominators(test, order, keep, later, x);
        } else {
          DominatedByFirst(test, order, keep, x);
        }
      }
    }
  }

  lemma NothingBeforeFirst(order: seq<nat>)
    requires order != [] && Distinct(order)
    ensures forall y :: !Before(order, y, order[0])
  {
  }

  lemma {:induction false} KeptAgreeUpTo(test: Test, order: seq<nat>, a: set<nat>, b: set<nat>, n: nat)
    requires Distinct(order) && n <= |order|
    requires KeptIffUndominated(test, order, a) && KeptIffUndominated(test, order, b)
    ensures forall p | 0 <= p < n :: order[p] in a <==> order[p] in b
  {
    if n > 0 {
      KeptAgreeUpTo(test, order, a, b, n - 1);
      var x := order[n - 1];
      forall y ensures Before(order, y, x) && y in a <==> Before(order, y, x) && y in b {
        if Before(order, y, x) {
          var q, p :| 0 <= q < p < |order| && order[q] == y && order[p] == x;
          assert p == n - 1;
        }
      }
      assert Undominated(test, order, a, x) <==> Undominated(test, order, b, x);
    }
  }

  /** No other set of indexes has that property. */
  lemma KeptSetIsUnique(test: Test, order: seq<nat>, other: set<nat>)
    requires Distinct(order) && KeptIffUndominated(test, order, other)
    ensures other == Members(Greedy(test, order))
  {
    GreedyIsExact(test, order);
    KeptAgreeUpTo(test, order, other, Members(Greedy(test, order)), |order|);
  }

  /** What sorting the scores and reversing gives: every box once, best first. */
  ghost predicate BestFirst(order: seq<nat>, scores: seq<real>) {
    && Distinct(order)
    && (forall i: nat :: i in order <==> i < |scores|)
    && (forall p | 0 <= p < |order| :: order[p] < |scores|)
    && forall p, q | 0 <= p < q < |order| :: scores[order[p]] >= scores[order[q]]
  }

  /** Box `y` scored at least as high as box `x` and overlaps it above the threshold. */
  ghost predicate Suppresses(boxes: seq<Box>, scores: seq<real>, threshold: real, y: nat, x: nat)
    requires y < |boxes| == |scores| && x < |boxes|
  {
    scores[y] >= scores[x] && !Passes(boxes[y], boxes[x], threshold)
  }

  /** Every dropped box is suppressed by a kept one, and no kept box by a kept one before it. */
  lemma KeptApartDroppedDominated(boxes: seq<Box>, scores: seq<real>, order: seq<nat>, threshold: real)
    requires |boxes| == |scores| && BestFirst(order, scores)
    ensures var keep := Greedy(OverlapTest(boxes, threshold), order);
            && (forall y, x | y in keep && x in keep && Before(order, y, x) :: OverlapTest(boxes, threshold)(y, x))
            && (forall x | 0 <= x < |boxes| && x !in keep ::
                  exists y | 0 <= y < |boxes| :: y in keep && Suppresses(boxes, scores, threshold, y, x))
  {
    var test := OverlapTest(boxes, threshold);
    var keep := Greedy(test, order);
    GreedyIsExact(test, order);
    forall y: nat ensures y in Members(keep) <==> y in keep {}
    forall y, x | y in keep && x in keep && Before(order, y, x) ensures test(y, x) {
      assert Undominated(test, order, Members(keep), x);
    }
    forall x | 0 <= x < |boxes| && x !in keep
      ensures exists y | 0 <= y < |boxes| :: y in keep && Suppresses(boxes, scores, threshold, y, x)
    {
      assert !Undominated(test, order, Members(keep), x);
      var y :| y in Members(keep) && Before(order, y, x) && !test(y, x);
      BeforeMembers(order, y, x);
      assert y in keep && Suppresses(boxes, scores, threshold, y, x);
    }
  }
}
