/** What the overlap test of the suppression means, and so which boxes it keeps. */
module NmsOverlap {
  import opened Nms

  /** The hundred-thousandth of a pixel every shared side is widened by. */
  const WIDENED: real := 0.00001

  predicate HasArea(b: Box) {
    b.x1 < b.x2 && b.y1 < b.y2
  }

  /** Apart by the widening or more on one axis. */
  predicate Apart(a: Box, b: Box) {
    || a.x2 + WIDENED <= b.x1 || b.x2 + WIDENED <= a.x1
    || a.y2 + WIDENED <= b.y1 || b.y2 + WIDENED <= a.y1
  }

  predicate Inside(a: Box, b: Box) {
    b.x1 <= a.x1 && a.x2 <= b.x2 && b.y1 <= a.y1 && a.y2 <= b.y2
  }

  lemma AreaIsPositive(b: Box)
    requires HasArea(b)
    ensures Area(b) > 0.0
  {
    Product(b.x2 - b.x1, b.y2 - b.y1);
  }

  lemma Product(a: real, b: real)
    requires a > 0.0 && b > 0.0
    ensures a * b > 0.0
  {
  }

  lemma Quotient(a: real, b: real, q: real)
    requires b > 0.0
    ensures a / b <= q <==> a <= q * b
  {
    assert a / b * b == a;
    if a / b <= q {
      assert (q - a / b) * b >= 0.0;
    } else {
      assert (a / b - q) * b > 0.0;
    }
  }

  // ----- what is shared -----

  lemma SharedIsNotNegative(a: Box, b: Box)
    ensures Shared(a, b) >= 0.0
  {
    NotNegative(Max(0.0, Min(a.x2, b.x2) - Max(a.x1, b.x1) + 0.00001),
                Max(0.0, Min(a.y2, b.y2) - Max(a.y1, b.y1) + 0.00001));
  }

  lemma ApartSharesNothing(a: Box, b: Box)
    requires Apart(a, b)
    ensures Shared(a, b) == 0.0
  {
    var w := Max(0.0, Min(a.x2, b.x2) - Max(a.x1, b.x1) + 0.00001);
    var h := Max(0.0, Min(a.y2, b.y2) - Max(a.y1, b.y1) + 0.00001);
    assert w == 0.0 || h == 0.0;
    assert w == 0.0 ==> w * h == 0.0;
    assert h == 0.0 ==> w * h == 0.0;
  }

  /** Of a box inside another the shared part is the box, widened. */
  lemma InsideSharesItself(a: Box, b: Box)
    requires HasArea(a) && Inside(a, b)
    ensures Shared(a, b) == (a.x2 - a.x1 + WIDENED) * (a.y2 - a.y1 + WIDENED)
  {
    assert Min(a.x2, b.x2) == a.x2 && Max(a.x1, b.x1) == a.x1;
    assert Min(a.y2, b.y2) == a.y2 && Max(a.y1, b.y1) == a.y1;
  }

  /** Two boxes of the same sides, one pushed along x into the other: the strip both cover, widened. */
  lemma StripIsShared(a: Box, b: Box, d: real)
    requires HasArea(a) && 0.0 <= d <= a.x2 - a.x1 && b == Box(a.x1 + d, a.y1, a.x2 + d, a.y2)
    ensures Shared(a, b) == (a.x2 - a.x1 - d + WIDENED) * (a.y2 - a.y1 + WIDENED)
  {
    assert Min(a.x2, b.x2) == a.x2 && Max(a.x1, b.x1) == b.x1;
    assert Min(a.y2, b.y2) == a.y2 && Max(a.y1, b.y1) == a.y1;
  }

  // ----- what passes -----

  /** The test on the three areas alone. */
  predicate Within(shared: real, mine: real, yours: real, threshold: real) {
    var whole := mine + yours - shared;
    whole != 0.0 && shared / whole <= threshold
  }

  lemma PassesIsWithin(a: Box, b: Box, threshold: real)
    ensures Passes(a, b, threshold) == Within(Shared(a, b), Area(a), Area(b), threshold)
  {
  }

  lemma PartOfTheRest(shared: real, mine: real, yours: real, threshold: real)
    requires shared < mine + yours
    ensures Within(shared, mine, yours, threshold) == (shared <= threshold * (mine + yours - shared))
  {
    Quotient(shared, mine + yours - shared, threshold);
  }

  /** Short of sharing all there is, two boxes pass iff the shared area is at most that part of the rest. */
  lemma PassesIff(a: Box, b: Box, threshold: real)
    requires Shared(a, b) < Area(a) + Area(b)
    ensures Passes(a, b, threshold) <==> Shared(a, b) <= threshold * (Area(a) + Area(b) - Shared(a, b))
  {
    PassesIsWithin(a, b, threshold);
    PartOfTheRest(Shared(a, b), Area(a), Area(b), threshold);
  }

  /** Boxes apart pass at every threshold that is not negative. */
  lemma ApartPasses(a: Box, b: Box, threshold: real)
    requires HasArea(a) && HasArea(b) && Apart(a, b) && threshold >= 0.0
    ensures Passes(a, b, threshold)
  {
    AreaIsPositive(a);
    AreaIsPositive(b);
    ApartSharesNothing(a, b);
    PassesIff(a, b, threshold);
    NotNegative(threshold, Area(a) + Area(b));
  }

  lemma NotNegative(a: real, b: real)
    requires a >= 0.0 && b >= 0.0
    ensures a * b >= 0.0
  {
  }

  /** Widened, the box covers no more than twice its area: every box of more than a few hundred-thousandths does. */
  predicate NotTiny(b: Box) {
    (b.x2 - b.x1 + WIDENED) * (b.y2 - b.y1 + WIDENED) <= 2.0 * Area(b)
  }

  lemma WiderIsLarger(w: real, h: real)
    requires w > 0.0 && h > 0.0
    ensures (w + WIDENED) * (h + WIDENED) > w * h
  {
    Product(w, WIDENED);
    Product(WIDENED, h);
    assert (w + WIDENED) * (h + WIDENED) == w * h + w * WIDENED + WIDENED * h + WIDENED * WIDENED;
  }

  lemma Scaled(w: real, h: real)
    ensures (1.4 * w) * (1.4 * h) == 1.96 * (w * h)
  {
  }

  lemma SidesMakeItNotTiny(b: Box)
    requires b.x2 - b.x1 >= 0.000025 && b.y2 - b.y1 >= 0.000025
    ensures HasArea(b) && NotTiny(b)
  {
    var w, h := b.x2 - b.x1, b.y2 - b.y1;
    ProductGrows(w + WIDENED, 1.4 * w, h + WIDENED, 1.4 * h);
    Scaled(w, h);
    AreaIsPositive(b);
  }

  lemma ProductGrows(a: real, b: real, c: real, d: real)
    requires 0.0 <= a <= b && 0.0 <= c <= d
    ensures a * c <= b * d
  {
    NotNegative(b - a, c);
    NotNegative(b, d - c);
    assert (b - a) * c == b * c - a * c;
    assert b * (d - c) == b * d - b * c;
  }

  lemma DoubleWithinIff(shared: real, area: real, threshold: real)
    requires 0.0 < area < shared && 0.0 <= threshold < 1.0
    ensures !Within(shared, area, area, threshold) <==> shared <= 2.0 * area
  {
    var whole := area + area - shared;
    if whole > 0.0 {
      PartOfTheRest(shared, area, area, threshold);
      NotNegative(1.0 - threshold, whole);
      Distributes(whole, 1.0 - threshold, threshold);
    } else if whole < 0.0 {
      NotNegative(threshold, -whole);
      Quotient(-shared, -whole, threshold);
      SameQuotientNegated(shared, whole);
    }
  }

  lemma SameQuotientNegated(a: real, b: real)
    requires b != 0.0
    ensures a / b == (-a) / (-b)
  {
    var q, p := a / b, (-a) / (-b);
    assert q * b == a && p * (-b) == -a;
    assert (q - p) * b == 0.0;
  }

  lemma DoubleShares(b: Box)
    requires HasArea(b)
    ensures 0.0 < Area(b) < Shared(b, b)
    ensures Shared(b, b) <= 2.0 * Area(b) <==> NotTiny(b)
  {
    AreaIsPositive(b);
    InsideSharesItself(b, b);
    WiderIsLarger(b.x2 - b.x1, b.y2 - b.y1);
  }

  /** At any threshold from zero up to one a box fails against its own double iff it is not tiny. */
  lemma DoubleFailsIff(b: Box, threshold: real)
    requires HasArea(b) && 0.0 <= threshold < 1.0
    ensures !Passes(b, b, threshold) <==> NotTiny(b)
  {
    DoubleShares(b);
    PassesIsWithin(b, b, threshold);
    DoubleWithinIff(Shared(b, b), Area(b), threshold);
  }

  /** A box of a millionth of a pixel a side passes against its own double: both are kept. */
  lemma TinyDoublePasses()
    ensures var b := Box(0.0, 0.0, 0.000001, 0.000001);
            HasArea(b) && !NotTiny(b) && Passes(b, b, 0.45)
  {
    var b := Box(0.0, 0.0, 0.000001, 0.000001);
    assert Area(b) == 0.000000000001;
    assert !NotTiny(b);
    DoubleFailsIff(b, 0.45);
  }

  /** Passing at one threshold is passing at every higher one. */
  lemma HigherThresholdPasses(a: Box, b: Box, low: real, high: real)
    requires low <= high && Passes(a, b, low)
    ensures Passes(a, b, high)
  {
  }

  lemma FactorNotNegative(a: real, b: real)
    requires b > 0.0 && a * b >= 0.0
    ensures a >= 0.0
  {
  }

  lemma Distributes(a: real, b: real, c: real)
    ensures a * (b + c) == a * b + a * c
  {
  }

  lemma LessOfTheRest(threshold: real, total: real, more: real, less: real)
    requires 0.0 <= less <= more < total && more <= threshold * (total - more)
    ensures less <= threshold * (total - less)
  {
    FactorNotNegative(threshold, total - more);
    NotNegative(threshold, more - less);
    Distributes(threshold, total - more, more - less);
    assert total - less == (total - more) + (more - less);
  }

  lemma LessIsWithin(more: real, less: real, mine: real, yours: real, his: real, hers: real, threshold: real)
    requires mine + yours == his + hers && 0.0 <= less <= more < mine + yours
    requires Within(more, mine, yours, threshold)
    ensures Within(less, his, hers, threshold)
  {
    PartOfTheRest(more, mine, yours, threshold);
    LessOfTheRest(threshold, mine + yours, more, less);
    PartOfTheRest(less, his, hers, threshold);
  }

  /** Of boxes as large, those that share no more pass where the others do, if those do not share all there is. */
  lemma LessSharedPasses(a: Box, b: Box, c: Box, d: Box, threshold: real)
    requires Area(a) + Area(b) == Area(c) + Area(d)
    requires Shared(c, d) <= Shared(a, b) < Area(a) + Area(b)
    requires Passes(a, b, threshold)
    ensures Passes(c, d, threshold)
  {
    SharedIsNotNegative(c, d);
    PassesIsWithin(a, b, threshold);
    PassesIsWithin(c, d, threshold);
    LessIsWithin(Shared(a, b), Shared(c, d), Area(a), Area(b), Area(c), Area(d), threshold);
  }

  // ----- what is kept -----

  lemma {:induction false} AllSurvive(test: Test, i: nat, order: seq<nat>)
    requires forall x | x in order :: test(i, x)
    ensures Survivors(test, i, order) == order
  {
    if order != [] {
      assert forall x | x in order[1..] :: x in order;
      AllSurvive(test, i, order[1..]);
    }
  }

  lemma {:induction false} NothingSuppressed(test: Test, order: seq<nat>)
    requires forall p, q | 0 <= p < q < |order| :: test(order[p], order[q])
    ensures Greedy(test, order) == order
    decreases |order|
  {
    if order != [] {
      var later := order[1..];
      forall x | x in later ensures test(order[0], x) {
        var q :| 0 <= q < |later| && later[q] == x;
        assert order[q + 1] == x;
      }
      AllSurvive(test, order[0], later);
      forall p, q | 0 <= p < q < |later| ensures test(later[p], later[q]) {
        assert later[p] == order[p + 1] && later[q] == order[q + 1];
      }
      NothingSuppressed(test, later);
    }
  }

  /** Boxes that are all apart from one another are all kept, in the order of their scores. */
  lemma ApartAreAllKept(boxes: seq<Box>, order: seq<nat>, threshold: real)
    requires threshold >= 0.0 && Distinct(order) && forall p | 0 <= p < |order| :: order[p] < |boxes|
    requires forall i | 0 <= i < |boxes| :: HasArea(boxes[i])
    requires forall i, j | 0 <= i < |boxes| && 0 <= j < |boxes| && i != j :: Apart(boxes[i], boxes[j])
    ensures Greedy(OverlapTest(boxes, threshold), order) == order
  {
    var test := OverlapTest(boxes, threshold);
    forall p, q | 0 <= p < q < |order| ensures test(order[p], order[q]) {
      ApartPasses(boxes[order[p]], boxes[order[q]], threshold);
    }
    NothingSuppressed(test, order);
  }

  /** Of equal boxes only the first in the order, the best scored, may be kept. */
  lemma OnlyTheBestOfEquals(boxes: seq<Box>, order: seq<nat>, threshold: real, i: nat, j: nat)
    requires 0.0 <= threshold < 1.0 && Distinct(order) && forall p | 0 <= p < |order| :: order[p] < |boxes|
    requires i < |boxes| && j < |boxes| && boxes[i] == boxes[j] && HasArea(boxes[i]) && NotTiny(boxes[i])
    requires Before(order, i, j)
    ensures j !in Greedy(OverlapTest(boxes, threshold), order)
  {
    var test := OverlapTest(boxes, threshold);
    var keep := Members(Greedy(test, order));
    GreedyIsExact(test, order);
    BeforeMembers(order, i, j);
    if i in keep {
      DoubleFailsIff(boxes[i], threshold);
      assert !test(i, j);
      assert !Undominated(test, order, keep, j);
    } else {
      assert !Undominated(test, order, keep, i);
      var y :| y in keep && Before(order, y, i) && !test(y, i);
      BeforeThrough(order, y, i, j);
      assert !test(y, j);
      assert !Undominated(test, order, keep, j);
    }
    assert j !in keep;
  }

  lemma BeforeThrough(order: seq<nat>, y: nat, i: nat, j: nat)
    requires Distinct(order) && Before(order, y, i) && Before(order, i, j)
    ensures Before(order, y, j)
  {
    var q, p :| 0 <= q < p < |order| && order[q] == y && order[p] == i;
    var r, s :| 0 <= r < s < |order| && order[r] == i && order[s] == j;
    assert p == r;
  }
}
