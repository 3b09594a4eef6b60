/** The nearest-colour matcher: findClosestColorEuclidean and
    findClosestColorCIEDE are one linear scan over Object.keys(colorPool)
    that keeps the first key whose distance is strictly below the best so
    far.  The scan is modelled once, over a distance function; the
    Euclidean instance uses SquaredEuclidean and the CIEDE2000 instance is
    whatever metric the caller passes (the color-diff library is not part
    of this model). */
module Matcher {

  import opened Rgb
  import Arith

  /** A colour-distance function: Euclidean or perceptual. */
  type Metric = (Color, Color) -> real

  /** The colours of the pool keys, in iteration order (hexToRgb of each). */
  function Decode(keys: seq<string>): (pool: seq<Color>)
    requires forall k :: k in keys ==> ParsesAsRgb(k)
    ensures |pool| == |keys|
  {
    if keys == [] then [] else Decode(keys[..|keys| - 1]) + [HexToRgb(keys[|keys| - 1]).value]
  }

  /** Position i of the decoded pool is the colour key i spells. */
  lemma {:induction false} DecodeAt(keys: seq<string>, i: nat)
    requires forall k :: k in keys ==> ParsesAsRgb(k)
    requires i < |keys|
    ensures Some(Decode(keys)[i]) == HexToRgb(keys[i])
    decreases |keys|
  {
    var init := keys[..|keys| - 1];
    if i < |init| {
      assert init[i] == keys[i];
      assert forall k :: k in init ==> k in keys;
      DecodeAt(init, i);
    }
  }

  /** The position chosen by a left-to-right scan with strict "<". */
  function FirstMinIndex(pixel: Color, pool: seq<Color>, dist: Metric): (k: nat)
    requires |pool| > 0
    ensures k < |pool|
    decreases |pool|
  {
    if |pool| == 1 then 0
    else
      var k := FirstMinIndex(pixel, pool[..|pool| - 1], dist);
      if dist(pixel, pool[|pool| - 1]) < dist(pixel, pool[k]) then |pool| - 1 else k
  }

  /** What the scan finds: no pool colour is closer than the chosen one,
      and every earlier one is strictly farther. */
  lemma {:induction false} FirstMinIndexIsFirstMin(pixel: Color, pool: seq<Color>, dist: Metric)
    requires |pool| > 0
    ensures var k := FirstMinIndex(pixel, pool, dist);
      && (forall j :: 0 <= j < |pool| ==> dist(pixel, pool[k]) <= dist(pixel, pool[j]))
      && (forall j :: 0 <= j < k ==> dist(pixel, pool[k]) < dist(pixel, pool[j]))
    decreases |pool|
  {
    if |pool| > 1 {
      var init := pool[..|pool| - 1];
      FirstMinIndexIsFirstMin(pixel, init, dist);
      assert forall j :: 0 <= j < |init| ==> init[j] == pool[j];
    }
  }

  /** The colour the matcher returns; None is the null of an empty pool. */
  function Closest(pixel: Color, pool: seq<Color>, dist: Metric): (c: Option<Color>)
    ensures c.Some? <==> |pool| > 0
    ensures c.Some? ==> c.value in pool
  {
    if |pool| == 0 then None else Some(pool[FirstMinIndex(pixel, pool, dist)])
  }

  /** The running minimum of the scan: JavaScript's Infinity or a distance. */
  datatype Best = Infinity | Finite(distance: real)

  predicate Below(d: real, best: Best) {
    best.Infinity? || d < best.distance
  }

  /** findClosestColorEuclidean / findClosestColorCIEDE. */
  method FindClosestColor(pixel: Color, keys: seq<string>, dist: Metric) returns (closest: Option<Color>)
    requires forall k :: k in keys ==> ParsesAsRgb(k)
    ensures closest == Closest(pixel, Decode(keys), dist)
  {
    ghost var pool := Decode(keys);
    closest := None;
    var minDistance := Infinity;
    var i := 0;
    while i < |keys|
      invariant 0 <= i <= |keys|
      invariant i == 0 ==> closest == None && minDistance == Infinity
      invariant i > 0 ==> closest == Some(pool[FirstMinIndex(pixel, pool[..i], dist)])
      invariant i > 0 ==> minDistance == Finite(dist(pixel, closest.value))
    {
      var poolColor := HexToRgb(keys[i]).value;
      DecodeAt(keys, i);
      var distance := dist(pixel, poolColor);
      ScanStep(pixel, pool, dist, i);
      if Below(distance, minDistance) {
        minDistance := Finite(distance);
        closest := Some(poolColor);
      }
      i := i + 1;
    }
    assert pool[..i] == pool;
  }

  /** A JavaScript number as a distance function may return it: a finite
      value, Infinity or NaN. */
  datatype Number = Num(value: real) | PosInfinity | NaN

  type NumberMetric = (Color, Color) -> Number

  /** distance < minDistance in JavaScript, with minDistance Infinity or
      finite: Infinity and NaN are below nothing. */
  predicate NumberBelow(d: Number, best: Best) {
    d.Num? && Below(d.value, best)
  }

  /** The forEach of findClosestColor under JavaScript comparison: the
      closest colour so far and minDistance after the given keys. */
  function NumberScan(pixel: Color, pool: seq<Color>, dist: NumberMetric): (s: (Option<Color>, Best))
    ensures s.0.Some? ==> s.0.value in pool && dist(pixel, s.0.value).Num?
    ensures s.0.None? <==> s.1.Infinity?
    decreases |pool|
  {
    if |pool| == 0 then (None, Infinity)
    else
      var before := NumberScan(pixel, pool[..|pool| - 1], dist);
      var last := pool[|pool| - 1];
      if NumberBelow(dist(pixel, last), before.1) then (Some(last), Finite(dist(pixel, last).value)) else before
  }

  /** The pool colours whose distance from pixel is a finite number. */
  function Comparable(pixel: Color, pool: seq<Color>, dist: NumberMetric): (f: seq<Color>)
    ensures forall c :: c in f <==> c in pool && dist(pixel, c).Num?
    decreases |pool|
  {
    if |pool| == 0 then []
    else
      var last := pool[|pool| - 1];
      Comparable(pixel, pool[..|pool| - 1], dist) + (if dist(pixel, last).Num? then [last] else [])
  }

  /** What the scan over a real-valued metric ends with: the closest
      colour and the minDistance it leaves (Infinity for an empty pool). */
  function ClosestWithDistance(pixel: Color, pool: seq<Color>, d: Metric): (s: (Option<Color>, Best))
    ensures s.0 == Closest(pixel, pool, d)
    ensures s.0.Some? ==> s.1 == Finite(d(pixel, s.0.value))
    ensures s.0.None? ==> s.1 == Infinity
  {
    var c := Closest(pixel, pool, d);
    (c, if c.Some? then Finite(d(pixel, c.value)) else Infinity)
  }

  /** Appending a colour to the pool: it becomes the match exactly when it
      lies strictly below the minimum so far. */
  lemma ClosestWithDistanceSnoc(pixel: Color, pool: seq<Color>, c: Color, d: Metric)
    ensures var before := ClosestWithDistance(pixel, pool, d);
      ClosestWithDistance(pixel, pool + [c], d)
        == if Below(d(pixel, c), before.1) then (Some(c), Finite(d(pixel, c))) else before
  {
    if |pool| > 0 {
      var p := pool + [c];
      assert p[..|p| - 1] == pool;
      assert p[|p| - 1] == c;
    }
  }

  /** The scan under JavaScript comparison is the real-valued scan over the
      colours whose distance is a finite number, for any real metric d that
      agrees with those finite values. */
  lemma {:induction false} NumberScanIsClosest(pixel: Color, pool: seq<Color>, dist: NumberMetric, d: Metric)
    requires forall q :: dist(pixel, q).Num? ==> d(pixel, q) == dist(pixel, q).value
    ensures NumberScan(pixel, pool, dist) == ClosestWithDistance(pixel, Comparable(pixel, pool, dist), d)
    decreases |pool|
  {
    if |pool| > 0 {
      var init, last := pool[..|pool| - 1], pool[|pool| - 1];
      NumberScanIsClosest(pixel, init, dist, d);
      var g := Comparable(pixel, init, dist);
      if dist(pixel, last).Num? {
        assert Comparable(pixel, pool, dist) == g + [last];
        ClosestWithDistanceSnoc(pixel, g, last, d);
      } else {
        assert Comparable(pixel, pool, dist) == g;
      }
    }
  }

  /** A metric that returns no finite number for any pool colour leaves
      closestColor null. */
  lemma {:induction false} NonNumberGivesNull(pixel: Color, pool: seq<Color>, dist: NumberMetric)
    requires forall q :: q in pool ==> !dist(pixel, q).Num?
    ensures NumberScan(pixel, pool, dist).0 == None
    decreases |pool|
  {
    if |pool| > 0 {
      var init := pool[..|pool| - 1];
      assert forall q :: q in init ==> q in pool;
      NonNumberGivesNull(pixel, init, dist);
      assert pool[|pool| - 1] in pool;
    }
  }

  /** When every pool colour has a finite distance, all of them are
      compared. */
  lemma AllComparable(pixel: Color, pool: seq<Color>, dist: NumberMetric)
    requires forall q :: q in pool ==> dist(pixel, q).Num?
    ensures Comparable(pixel, pool, dist) == pool
  {
    ComparableWhole(pixel, pool, dist);
  }

  /** AllComparable by induction, with the premise on positions. */
  lemma {:induction false} ComparableWhole(pixel: Color, pool: seq<Color>, dist: NumberMetric)
    requires forall i :: 0 <= i < |pool| ==> dist(pixel, pool[i]).Num?
    ensures Comparable(pixel, pool, dist) == pool
    decreases |pool|
  {
    if |pool| > 0 {
      var init, last := pool[..|pool| - 1], pool[|pool| - 1];
      assert Comparable(pixel, pool, dist) == Comparable(pixel, init, dist) + [last];
      ComparableWhole(pixel, init, dist);
      assert init + [last] == pool;
    }
  }

  /** A metric that is finite on every pool colour gives the match of the
      real-valued model. */
  lemma NumberScanAgrees(pixel: Color, pool: seq<Color>, dist: NumberMetric, d: Metric)
    requires forall q :: dist(pixel, q).Num? ==> d(pixel, q) == dist(pixel, q).value
    requires forall q :: q in pool ==> dist(pixel, q).Num?
    ensures NumberScan(pixel, pool, dist).0 == Closest(pixel, pool, d)
  {
    NumberScanIsClosest(pixel, pool, dist, d);
    AllComparable(pixel, pool, dist);
  }

  /** One step of the scan: the next colour replaces the best so far only
      when it is strictly closer. */
  lemma ScanStep(pixel: Color, pool: seq<Color>, dist: Metric, i: nat)
    requires i < |pool|
    ensures i == 0 ==> FirstMinIndex(pixel, pool[..1], dist) == 0
    ensures i > 0 ==>
      var k := FirstMinIndex(pixel, pool[..i], dist);
      FirstMinIndex(pixel, pool[..i + 1], dist)
        == if dist(pixel, pool[i]) < dist(pixel, pool[k]) then i else k
  {
    var p := pool[..i + 1];
    assert p[..i] == pool[..i];
    assert p[i] == pool[i];
  }

  /** The scan with a metric is unchanged when the metric is replaced by
      one that ranks the pool colours the same way.  Instantiated with
      euclideanDistance and SquaredEuclidean (the square root is strictly
      increasing), this is why the model may drop the root. */
  lemma {:induction false} FirstMinIndexRankInvariant(pixel: Color, pool: seq<Color>, d1: Metric, d2: Metric)
    requires |pool| > 0
    requires forall p, q :: d1(pixel, p) < d1(pixel, q) <==> d2(pixel, p) < d2(pixel, q)
    ensures FirstMinIndex(pixel, pool, d1) == FirstMinIndex(pixel, pool, d2)
    decreases |pool|
  {
    if |pool| > 1 {
      FirstMinIndexRankInvariant(pixel, pool[..|pool| - 1], d1, d2);
    }
  }

  lemma ClosestRankInvariant(pixel: Color, pool: seq<Color>, d1: Metric, d2: Metric)
    requires forall p, q :: d1(pixel, p) < d1(pixel, q) <==> d2(pixel, p) < d2(pixel, q)
    ensures Closest(pixel, pool, d1) == Closest(pixel, pool, d2)
  {
    if |pool| > 0 {
      FirstMinIndexRankInvariant(pixel, pool, d1, d2);
    }
  }

  /** euclideanDistance itself: any non-negative metric whose square is
      SquaredEuclidean, as Math.sqrt of the sum of squares is, picks the
      same pool colour as SquaredEuclidean. */
  lemma RootMetricMatches(pixel: Color, pool: seq<Color>, d: Metric)
    requires forall p, q :: d(p, q) >= 0.0 && d(p, q) * d(p, q) == SquaredEuclidean(p, q)
    ensures Closest(pixel, pool, d) == Closest(pixel, pool, SquaredEuclidean)
  {
    RootRanksAlike(pixel, d, SquaredEuclidean);
    ClosestRankInvariant(pixel, pool, d, SquaredEuclidean);
  }

  /** A non-negative root of a metric ranks colours as the metric does. */
  lemma RootRanksAlike(pixel: Color, d: Metric, squared: Metric)
    requires forall p, q :: d(p, q) >= 0.0 && d(p, q) * d(p, q) == squared(p, q)
    ensures forall p, q :: d(pixel, p) < d(pixel, q) <==> squared(pixel, p) < squared(pixel, q)
  {
    forall p, q
      ensures d(pixel, p) < d(pixel, q) <==> squared(pixel, p) < squared(pixel, q)
    {
      Arith.SquareMonotone(d(pixel, p), d(pixel, q));
    }
  }

  /** The two properties of FirstMinIndex determine it: on a tie the
      earliest minimal position, and only it, is chosen. */
  lemma FirstMinIndexUnique(pixel: Color, pool: seq<Color>, dist: Metric, k: nat)
    requires k < |pool|
    requires forall j :: 0 <= j < |pool| ==> dist(pixel, pool[k]) <= dist(pixel, pool[j])
    requires forall j :: 0 <= j < k ==> dist(pixel, pool[k]) < dist(pixel, pool[j])
    ensures FirstMinIndex(pixel, pool, dist) == k
  {
    FirstMinIndexIsFirstMin(pixel, pool, dist);
    var m := FirstMinIndex(pixel, pool, dist);
    assert !(m < k) && !(k < m);
  }

  /** A distance that is zero exactly on equal colours and positive
      otherwise, as SquaredEuclidean is. */
  ghost predicate Separates(dist: Metric) {
    forall a, b :: dist(a, b) >= 0.0 && (dist(a, b) == 0.0 <==> a == b)
  }

  /** Under such a distance a pixel that is itself a pool colour matches
      itself. */
  lemma ClosestOfPoolColor(pixel: Color, pool: seq<Color>, dist: Metric)
    requires Separates(dist) && pixel in pool
    ensures Closest(pixel, pool, dist) == Some(pixel)
  {
    FirstMinIndexIsFirstMin(pixel, pool, dist);
    var k := FirstMinIndex(pixel, pool, dist);
    var j :| 0 <= j < |pool| && pool[j] == pixel;
    assert dist(pixel, pool[j]) == 0.0;
    assert dist(pixel, pool[k]) <= 0.0;
  }

  lemma SquaredEuclideanSeparates()
    ensures Separates(SquaredEuclidean)
  {
  }

  /** A mid-grey (128,128,128) against white (listed first) and black: the
      distances do not tie (127 against 128 per channel), so white wins in
      either order. */
  lemma MidGreyMatchesWhite()
    ensures Closest(Color(128, 128, 128), [Color(255, 255, 255), Color(0, 0, 0)], SquaredEuclidean)
         == Some(Color(255, 255, 255))
    ensures Closest(Color(128, 128, 128), [Color(0, 0, 0), Color(255, 255, 255)], SquaredEuclidean)
         == Some(Color(255, 255, 255))
  {
    var grey, white, black := Color(128, 128, 128), Color(255, 255, 255), Color(0, 0, 0);
    assert SquaredEuclidean(grey, white) == 48387.0;
    assert SquaredEuclidean(grey, black) == 49152.0;
    assert [white, black][..1] == [white];
    assert [black, white][..1] == [black];
  }
}
