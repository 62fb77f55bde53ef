/** The loop over classes in `post_process` of apps/detect-rknn-yolo11/detect-rknn-yolo11.py. */
module Detections {
  import opened Nms

  /** `np.where(classes == class_id)`: the positions of one class among the first `n`, ascending. */
  function Where(classes: seq<int>, c: int, n: nat): (inds: seq<nat>)
    requires n <= |classes|
    ensures forall p | 0 <= p < |inds| :: inds[p] < n && classes[inds[p]] == c
  {
    if n == 0 then [] else Where(classes, c, n - 1) + if classes[n - 1] == c then [n - 1] else []
  }

  predicate Below(inds: seq<nat>, bound: nat) {
    forall p | 0 <= p < |inds| :: inds[p] < bound
  }

  /** `items[inds]`. */
  function Pick<T>(items: seq<T>, inds: seq<nat>): (picked: seq<T>)
    requires Below(inds, |items|)
    ensures |picked| == |inds| && forall p | 0 <= p < |inds| :: picked[p] == items[inds[p]]
  {
    seq(|inds|, p requires 0 <= p < |inds| => items[inds[p]])
  }

  /** What is known before suppression; `orders` is how the scores of each class sorted, best first. */
  datatype Candidates = Candidates(boxes: seq<Box>, scores: seq<real>, classes: seq<int>, orders: map<int, seq<nat>>)

  predicate Aligned(d: Candidates) {
    |d.boxes| == |d.scores| == |d.classes|
  }

  function InClass(d: Candidates, c: int): (inds: seq<nat>)
    ensures Below(inds, |d.classes|)
  {
    Where(d.classes, c, |d.classes|)
  }

  function ClassBoxes(d: Candidates, c: int): (boxes: seq<Box>)
    requires Aligned(d)
    ensures |boxes| == |InClass(d, c)|
  {
    Pick(d.boxes, InClass(d, c))
  }

  ghost predicate Sorted(d: Candidates, c: int)
    requires Aligned(d)
  {
    c in d.orders && BestFirst(d.orders[c], Pick(d.scores, InClass(d, c)))
  }

  /** What suppression keeps of one class, by position within the class. */
  function Keep(d: Candidates, threshold: real, c: int): (keep: seq<nat>)
    requires Aligned(d) && Sorted(d, c)
    ensures Below(keep, |InClass(d, c)|)
  {
    GreedyBelow(OverlapTest(ClassBoxes(d, c), threshold), d.orders[c], |InClass(d, c)|);
    Greedy(OverlapTest(ClassBoxes(d, c), threshold), d.orders[c])
  }

  lemma GreedyBelow(test: Test, order: seq<nat>, bound: nat)
    requires Below(order, bound)
    ensures Below(Greedy(test, order), bound)
  {
    forall p | 0 <= p < |Greedy(test, order)| ensures Greedy(test, order)[p] < bound {
      GreedyKeepsOffered(test, order, Greedy(test, order)[p]);
    }
  }

  /** The same, by position among all. */
  function KeptOf(d: Candidates, threshold: real, c: int): (kept: seq<nat>)
    requires Aligned(d) && Sorted(d, c)
    ensures forall k | 0 <= k < |kept| :: kept[k] < |d.classes| && d.classes[kept[k]] == c
  {
    Pick(InClass(d, c), Keep(d, threshold, c))
  }

  function KeptOfAll(d: Candidates, threshold: real, found: seq<int>): seq<nat>
    requires Aligned(d) && forall k | 0 <= k < |found| :: Sorted(d, found[k])
  {
    if found == [] then [] else KeptOf(d, threshold, found[0]) + KeptOfAll(d, threshold, found[1..])
  }

  /** `found` lists the classes as the set yields them. */
  method PostProcess(d: Candidates, threshold: real, found: seq<int>) returns (kept: seq<nat>)
    requires Aligned(d) && forall k | 0 <= k < |found| :: Sorted(d, found[k])
    ensures kept == KeptOfAll(d, threshold, found)
  {
    kept := [];
    var k := 0;
    while k < |found|
      invariant k <= |found|
      invariant kept + KeptOfAll(d, threshold, found[k..]) == KeptOfAll(d, threshold, found)
    {
      var ofClass := KeepOne(d, threshold, found[k]);
      OneMoreClass(d, threshold, found, k, kept);
      if ofClass != [] {
        kept := kept + ofClass;
      } else {
        assert kept + ofClass == kept;
      }
      k := k + 1;
    }
    assert kept + [] == kept;
  }

  lemma OneMoreClass(d: Candidates, threshold: real, found: seq<int>, k: nat, kept: seq<nat>)
    requires Aligned(d) && (forall k | 0 <= k < |found| :: Sorted(d, found[k])) && k < |found|
    ensures kept + KeptOfAll(d, threshold, found[k..])
         == (kept + KeptOf(d, threshold, found[k])) + KeptOfAll(d, threshold, found[k + 1..])
  {
    assert found[k..][1..] == found[k + 1..];
  }

  method KeepOne(d: Candidates, threshold: real, c: int) returns (kept: seq<nat>)
    requires Aligned(d) && Sorted(d, c)
    ensures kept == KeptOf(d, threshold, c)
  {
    var inds := InClass(d, c);
    var keep := NmsBoxes(ClassBoxes(d, c), d.orders[c], threshold);
    assert keep == Keep(d, threshold, c);
    kept := Pick(inds, keep);
  }

  // ----- what the loop keeps -----

  lemma {:induction false} WhereIsExact(classes: seq<int>, c: int, n: nat, i: nat)
    requires n <= |classes|
    ensures i in Where(classes, c, n) <==> i < n && classes[i] == c
  {
    if n > 0 {
      WhereIsExact(classes, c, n - 1, i);
    }
  }

  lemma {:induction false} WhereAscends(classes: seq<int>, c: int, n: nat, p: nat, q: nat)
    requires n <= |classes| && p < q < |Where(classes, c, n)|
    ensures Where(classes, c, n)[p] < Where(classes, c, n)[q]
  {
    if q < |Where(classes, c, n - 1)| {
      WhereAscends(classes, c, n - 1, p, q);
    }
  }

  /** A box is among those kept iff its class was listed and its own class's suppression kept it. */
  lemma {:induction false} KeptByItsClass(d: Candidates, threshold: real, found: seq<int>, x: nat)
    requires Aligned(d) && (forall k | 0 <= k < |found| :: Sorted(d, found[k])) && x < |d.classes|
    ensures x in KeptOfAll(d, threshold, found) <==>
              exists k | 0 <= k < |found| :: found[k] == d.classes[x] && x in KeptOf(d, threshold, found[k])
  {
    if found != [] {
      KeptByItsClass(d, threshold, found[1..], x);
      if k :| 0 <= k < |found| && found[k] == d.classes[x] && x in KeptOf(d, threshold, found[k]) {
        assert k > 0 ==> found[1..][k - 1] == found[k];
      }
    }
  }

  /** The position within its class of a kept box. */
  lemma KeptAt(d: Candidates, threshold: real, c: int, x: nat) returns (p: nat)
    requires Aligned(d) && Sorted(d, c) && x in KeptOf(d, threshold, c)
    ensures p in Keep(d, threshold, c) && p < |InClass(d, c)| && InClass(d, c)[p] == x
  {
    var k :| 0 <= k < |KeptOf(d, threshold, c)| && KeptOf(d, threshold, c)[k] == x;
    p := Keep(d, threshold, c)[k];
  }

  lemma KeptHere(d: Candidates, threshold: real, c: int, p: nat)
    requires Aligned(d) && Sorted(d, c) && p < |InClass(d, c)|
    ensures p in Keep(d, threshold, c) ==> InClass(d, c)[p] in KeptOf(d, threshold, c)
  {
    if k :| 0 <= k < |Keep(d, threshold, c)| && Keep(d, threshold, c)[k] == p {
      assert KeptOf(d, threshold, c)[k] == InClass(d, c)[p];
    }
  }

  lemma SharedIsMutual(a: Box, b: Box)
    ensures Shared(a, b) == Shared(b, a)
  {
    assert Min(a.x2, b.x2) == Min(b.x2, a.x2) && Max(a.x1, b.x1) == Max(b.x1, a.x1);
    assert Min(a.y2, b.y2) == Min(b.y2, a.y2) && Max(a.y1, b.y1) == Max(b.y1, a.y1);
  }

  lemma SameQuotient(shared: real, whole: real, other: real, threshold: real)
    requires whole == other
    ensures (whole != 0.0 && shared / whole <= threshold) == (other != 0.0 && shared / other <= threshold)
  {
  }

  lemma SameTotal(area: real, other: real, shared: real)
    ensures area + other - shared == other + area - shared
  {
  }

  lemma OverlapIsMutual(a: Box, b: Box, threshold: real)
    ensures Passes(a, b, threshold) == Passes(b, a, threshold)
  {
    SharedIsMutual(a, b);
    var shared, mine, yours := Shared(a, b), Area(a), Area(b);
    SameTotal(mine, yours, shared);
    SameQuotient(shared, mine + yours - shared, yours + mine - shared, threshold);
  }

  lemma OneBeforeTheOther(order: seq<nat>, y: nat, x: nat)
    requires y in order && x in order && y != x
    ensures Before(order, y, x) || Before(order, x, y)
  {
    var j :| 0 <= j < |order| && order[j] == y;
    var i :| 0 <= i < |order| && order[i] == x;
  }

  /** Of two different kept boxes of a class neither overlaps the other above the threshold. */
  lemma KeptOfClassApart(d: Candidates, threshold: real, c: int, y: nat, x: nat)
    requires Aligned(d) && Sorted(d, c) && y != x
    requires y in KeptOf(d, threshold, c) && x in KeptOf(d, threshold, c)
    ensures y < |d.boxes| && x < |d.boxes| && Passes(d.boxes[y], d.boxes[x], threshold)
  {
    var boxes, order := ClassBoxes(d, c), d.orders[c];
    var test := OverlapTest(boxes, threshold);
    var q := KeptAt(d, threshold, c, y);
    var p := KeptAt(d, threshold, c, x);
    KeptApartDroppedDominated(boxes, Pick(d.scores, InClass(d, c)), order, threshold);
    GreedyKeepsOffered(test, order, q);
    GreedyKeepsOffered(test, order, p);
    OneBeforeTheOther(order, q, p);
    assert test(q, p) || test(p, q);
    OverlapIsMutual(boxes[q], boxes[p], threshold);
  }

  /** A box its class's suppression drops is overlapped by a kept box of that class that scored at least as high. */
  lemma DroppedOfClassDominated(d: Candidates, threshold: real, x: nat) returns (y: nat)
    requires Aligned(d) && x < |d.classes| && Sorted(d, d.classes[x]) && x !in KeptOf(d, threshold, d.classes[x])
    ensures y < |d.classes| && d.classes[y] == d.classes[x] && y in KeptOf(d, threshold, d.classes[x])
    ensures Suppresses(d.boxes, d.scores, threshold, y, x)
  {
    var c := d.classes[x];
    var inds, boxes := InClass(d, c), ClassBoxes(d, c);
    var scores, keep := Pick(d.scores, inds), Keep(d, threshold, c);
    KeptApartDroppedDominated(boxes, scores, d.orders[c], threshold);
    WhereIsExact(d.classes, c, |d.classes|, x);
    var p: nat :| p < |inds| && inds[p] == x;
    KeptHere(d, threshold, c, p);
    assert keep == Greedy(OverlapTest(boxes, threshold), d.orders[c]);
    var q :| 0 <= q < |boxes| && q in keep && Suppresses(boxes, scores, threshold, q, p);
    KeptHere(d, threshold, c, q);
    y := inds[q];
  }

  lemma KeptOfClassOnce(d: Candidates, threshold: real, c: int)
    requires Aligned(d) && Sorted(d, c)
    ensures Distinct(KeptOf(d, threshold, c))
  {
    var inds, keep, kept := InClass(d, c), Keep(d, threshold, c), KeptOf(d, threshold, c);
    GreedyDistinct(OverlapTest(ClassBoxes(d, c), threshold), d.orders[c]);
    forall p, q | 0 <= p < q < |inds| ensures inds[p] != inds[q] {
      WhereAscends(d.classes, c, |d.classes|, p, q);
    }
    forall j, k | 0 <= j < k < |kept| ensures kept[j] != kept[k] {
      assert keep[j] != keep[k];
    }
  }

  /** With no class listed twice, no box is reported twice. */
  lemma {:induction false} NoBoxTwice(d: Candidates, threshold: real, found: seq<int>)
    requires Aligned(d) && forall k | 0 <= k < |found| :: Sorted(d, found[k])
    requires forall j, k | 0 <= j < k < |found| :: found[j] != found[k]
    ensures Distinct(KeptOfAll(d, threshold, found))
  {
    if found != [] {
      var first, later := KeptOf(d, threshold, found[0]), KeptOfAll(d, threshold, found[1..]);
      KeptOfClassOnce(d, threshold, found[0]);
      NoBoxTwice(d, threshold, found[1..]);
      forall x | x in first ensures x !in later {
        assert x < |d.classes| && d.classes[x] == found[0];
        KeptByItsClass(d, threshold, found[1..], x);
      }
      forall j, k | 0 <= j < |first| && 0 <= k < |later| ensures first[j] != later[k] {
        assert first[j] in first && later[k] in later;
      }
    }
  }

  /**
   * With every class listed: two kept boxes of one class never overlap above the threshold, and every
   * dropped box is overlapped by a kept one of its own class that scored at least as high, so no box is
   * ever dropped on account of another class.
   */
  lemma SuppressionStaysInItsClass(d: Candidates, threshold: real, found: seq<int>)
    requires Aligned(d) && (forall k | 0 <= k < |found| :: Sorted(d, found[k]))
    requires forall i | 0 <= i < |d.classes| :: d.classes[i] in found
    ensures var kept := KeptOfAll(d, threshold, found);
            && (forall y, x | 0 <= y < |d.classes| && 0 <= x < |d.classes| && y != x && y in kept && x in kept
                  && d.classes[y] == d.classes[x] :: Passes(d.boxes[y], d.boxes[x], threshold))
            && (forall x | 0 <= x < |d.classes| && x !in kept ::
                  exists y | 0 <= y < |d.classes| ::
                    y in kept && d.classes[y] == d.classes[x] && Suppresses(d.boxes, d.scores, threshold, y, x))
  {
    var kept := KeptOfAll(d, threshold, found);
    forall x | 0 <= x < |d.classes|
      ensures Sorted(d, d.classes[x])
      ensures x in kept <==> x in KeptOf(d, threshold, d.classes[x])
    {
      KeptByItsClass(d, threshold, found, x);
      var k :| 0 <= k < |found| && found[k] == d.classes[x];
    }
    forall y, x | 0 <= y < |d.classes| && 0 <= x < |d.classes| && y != x && y in kept && x in kept
      && d.classes[y] == d.classes[x] ensures Passes(d.boxes[y], d.boxes[x], threshold)
    {
      KeptOfClassApart(d, threshold, d.classes[x], y, x);
    }
    forall x | 0 <= x < |d.classes| && x !in kept
      ensures exists y | 0 <= y < |d.classes| ::
        y in kept && d.classes[y] == d.classes[x] && Suppresses(d.boxes, d.scores, threshold, y, x)
    {
      var y := DroppedOfClassDominated(d, threshold, x);
    }
  }
}
