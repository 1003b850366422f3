/**
 * The absolute, 1-based position of an LED along its whole spur, computed
 * from the segment length table of the spur.
 */
module SpurPosition {
  import opened Geometry

  /** The number of LEDs in the first `k` segments of a spur. */
  function LedsBefore(spur: Spur, k: nat): nat
    requires k <= |spur|
  {
    if k == 0 then 0 else LedsBefore(spur, k - 1) + |spur[k - 1].ledArray|
  }

  /** The number of LEDs of the whole spur. */
  function TotalLeds(spur: Spur): nat {
    LedsBefore(spur, |spur|)
  }

  /** There is an LED at index `led` of segment `segment` of the spur. */
  predicate IsLedOf(spur: Spur, segment: nat, led: nat) {
    segment < |spur| && led < |spur[segment].ledArray|
  }

  /** LED (segment, led) comes strictly before LED (segment', led') when walking the spur. */
  predicate TraversedBefore(segment: nat, led: nat, segment': nat, led': nat) {
    segment < segment' || (segment == segment' && led < led')
  }

  /** The 1-based position of LED `led` of segment `segment` along its spur. */
  function SpurLed(spur: Spur, segment: nat, led: nat): int
    requires segment <= |spur|
  {
    LedsBefore(spur, segment) + led + 1
  }

  /** `getSpurLedCount`: walks the segments before `segment`, adding up their lengths. */
  method GetSpurLedCount(line: Line, spur: nat, segment: nat, led: nat) returns (totalLedIndex: int)
    requires spur < |line| && segment <= |line[spur]|
    ensures totalLedIndex == LedsBefore(line[spur], segment) + led + 1
    ensures totalLedIndex >= 1
  {
    var segmentsArray := line[spur];
    totalLedIndex := 0;
    var i := 0;
    while i < segment
      invariant 0 <= i <= segment
      invariant totalLedIndex == LedsBefore(segmentsArray, i)
    {
      totalLedIndex := totalLedIndex + |segmentsArray[i].ledArray|;
      i := i + 1;
    }
    totalLedIndex := totalLedIndex + (led + 1);
  }

  /** Counting more segments never gives fewer LEDs. */
  lemma {:induction false} LedsBeforeMonotone(spur: Spur, j: nat, k: nat)
    requires j <= k <= |spur|
    ensures LedsBefore(spur, j) <= LedsBefore(spur, k)
    decreases k - j
  {
    if j < k {
      LedsBeforeMonotone(spur, j, k - 1);
    }
  }

  /** Positions along a spur strictly increase in traversal order. */
  lemma SpurLedIncreasing(spur: Spur, segment: nat, led: nat, segment': nat, led': nat)
    requires IsLedOf(spur, segment, led) && IsLedOf(spur, segment', led')
    requires TraversedBefore(segment, led, segment', led')
    ensures SpurLed(spur, segment, led) < SpurLed(spur, segment', led')
  {
    if segment < segment' {
      LedsBeforeMonotone(spur, segment + 1, segment');
    }
  }

  /** Every LED of a spur has a position between 1 and the spur's LED count. */
  lemma SpurLedInRange(spur: Spur, segment: nat, led: nat)
    requires IsLedOf(spur, segment, led)
    ensures 1 <= SpurLed(spur, segment, led) <= TotalLeds(spur)
  {
    LedsBeforeMonotone(spur, segment + 1, |spur|);
  }

  /** Segments without LEDs add nothing to the count. */
  lemma {:induction false} EmptySegmentsAddNothing(spur: Spur, j: nat, k: nat)
    requires j <= k <= |spur|
    requires forall m :: j <= m < k ==> |spur[m].ledArray| == 0
    ensures LedsBefore(spur, k) == LedsBefore(spur, j)
    decreases k - j
  {
    if j < k {
      EmptySegmentsAddNothing(spur, j, k - 1);
    }
  }

  /**
   * The last LED of a spur sits at the spur's LED count: the last LED of the
   * last segment that has any, whatever empty segments follow it.
   */
  lemma LastLedIsTotal(spur: Spur, k: nat)
    requires k < |spur| && |spur[k].ledArray| > 0
    requires forall m :: k < m < |spur| ==> |spur[m].ledArray| == 0
    ensures SpurLed(spur, k, |spur[k].ledArray| - 1) == TotalLeds(spur)
  {
    EmptySegmentsAddNothing(spur, k + 1, |spur|);
  }

  /** The LEDs a builder gives a spur: the LED counts of its waypoints after the first. */
  function WaypointLeds(wps: seq<Waypoint>, k: nat): nat
    requires k <= |wps|
  {
    if k <= 1 then 0 else WaypointLeds(wps, k - 1) + LedCount(wps[k - 1])
  }

  /** A built spur holds exactly as many LEDs as its waypoints ask for. */
  lemma {:induction false} BuiltSpurTotal(segs: Spur, wps: seq<Waypoint>,
                                          encode: Encoder, neighbours: NeighbourFinder, k: nat)
    requires SpurBuiltFrom(segs, wps, encode, neighbours)
    requires k < |wps|
    ensures LedsBefore(segs, k) == WaypointLeds(wps, k + 1)
  {
    if k > 0 {
      BuiltSpurTotal(segs, wps, encode, neighbours, k - 1);
      assert segs[k - 1] == SegmentFor(wps[k - 1], wps[k], encode, neighbours);
    }
  }

  /** A spur of two waypoints whose second asks for three LEDs ends at position 3. */
  lemma TwoWaypointSpur(w0: Waypoint, w1: Waypoint, segs: Spur,
                        encode: Encoder, neighbours: NeighbourFinder)
    requires w1.numLEDs == 3
    requires SpurBuiltFrom(segs, [w0, w1], encode, neighbours)
    ensures |segs| == 1 && |segs[0].ledArray| == 3
    ensures SpurLed(segs, 0, 2) == 3 == TotalLeds(segs)
  {
    var wps := [w0, w1];
    assert segs[0] == SegmentFor(wps[0], wps[1], encode, neighbours);
  }
}
