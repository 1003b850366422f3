/** Optional values: `None` stands for the source's `null` / `undefined`. */
module Optional {
  datatype Option<+T> = None | Some(value: T)
}

/**
 * The LED geometry of a line and the builder that produces it from the
 * surveyed waypoints of each spur.
 *
 * Coordinates are whole micro-degrees, so the accumulation of per-LED deltas
 * is exact. The geohash library is not modelled: its `encode` (at the fixed
 * configured precision) and `neighbours` functions are parameters.
 */
module Geometry {

  /** A geohash cell name at the configured precision. */
  type Geohash = string

  /** A latitude/longitude pair, in micro-degrees. */
  datatype Coord = Coord(lat: int, lon: int)

  /** The eight compass neighbours of a geohash cell, as the geohash library returns them. */
  datatype Neighbours = Neighbours(n: Geohash, ne: Geohash, e: Geohash, se: Geohash,
                                   s: Geohash, sw: Geohash, w: Geohash, nw: Geohash)
  {
    /** The neighbour cells in the library's key order. */
    function Values(): seq<Geohash> {
      [n, ne, e, se, s, sw, w, nw]
    }
  }

  /** `geohash.encode(lat, lon, GEOHASH_LENGTH)`. */
  type Encoder = (int, int) -> Geohash

  /** `geohash.neighbours(hash)`. */
  type NeighbourFinder = Geohash -> Neighbours

  /** One surveyed waypoint of a spur, already parsed from the line's survey file. */
  datatype Waypoint = Waypoint(lon: int, lat: int, numLEDs: int,
                               dlonOffset: int, dlatOffset: int,
                               dlonLED: int, dlatLED: int,
                               segment: int)

  /** One LED: its coordinate, its geohash and the geohashes of the 8 cells around it. */
  datatype Led = Led(ledLat: int, ledLon: int, geohash: Geohash, geohashNeighbors: Neighbours)

  /** The LEDs between two consecutive waypoints, with the later waypoint's segment id. */
  datatype Segment = Segment(segment: int, ledArray: seq<Led>)

  type Spur = seq<Segment>

  type Line = seq<Spur>

  /** The LED placed at (lat, lon), with its geohash and neighbours computed from that coordinate. */
  function MakeLed(lat: int, lon: int, encode: Encoder, neighbours: NeighbourFinder): Led {
    var hash := encode(lat, lon);
    Led(lat, lon, hash, neighbours(hash))
  }

  /** How many times the builder's `ledIndex < numLEDs` loop runs. */
  function LedCount(w: Waypoint): nat {
    if w.numLEDs > 0 then w.numLEDs else 0
  }

  /**
   * The first `n` LEDs of the segment closed by waypoint `w`, built the way the
   * builder builds them: the first LED is the previous waypoint plus the offset
   * delta, every later one is the LED before it plus the per-LED delta.
   */
  function SegmentLeds(prev: Waypoint, w: Waypoint, n: nat,
                       encode: Encoder, neighbours: NeighbourFinder): (leds: seq<Led>)
    ensures |leds| == n
    decreases n
  {
    if n == 0 then []
    else
      var before := SegmentLeds(prev, w, n - 1, encode, neighbours);
      var lat := if n == 1 then prev.lat + w.dlatOffset else before[n - 2].ledLat + w.dlatLED;
      var lon := if n == 1 then prev.lon + w.dlonOffset else before[n - 2].ledLon + w.dlonLED;
      before + [MakeLed(lat, lon, encode, neighbours)]
  }

  /** The segment produced for waypoint `w`, whose predecessor in the spur is `prev`. */
  function SegmentFor(prev: Waypoint, w: Waypoint, encode: Encoder, neighbours: NeighbourFinder): Segment {
    Segment(w.segment, SegmentLeds(prev, w, LedCount(w), encode, neighbours))
  }

  /** `segs` is what the builder produces from the waypoints `wps` of one spur. */
  ghost predicate SpurBuiltFrom(segs: Spur, wps: seq<Waypoint>, encode: Encoder, neighbours: NeighbourFinder) {
    && |segs| == (if |wps| == 0 then 0 else |wps| - 1)
    && forall k :: 0 <= k < |segs| ==> segs[k] == SegmentFor(wps[k], wps[k + 1], encode, neighbours)
  }

  /**
   * Closed form of the accumulation: LED i of a segment lies at the previous
   * waypoint plus the offset delta plus i times the per-LED delta, and its
   * geohash and neighbours belong to that coordinate.
   */
  lemma {:induction false} SegmentLedsClosedForm(prev: Waypoint, w: Waypoint, n: nat,
                                                 encode: Encoder, neighbours: NeighbourFinder, i: nat)
    requires i < n
    ensures SegmentLeds(prev, w, n, encode, neighbours)[i]
         == MakeLed(prev.lat + w.dlatOffset + i * w.dlatLED,
                    prev.lon + w.dlonOffset + i * w.dlonLED, encode, neighbours)
  {
    var before := SegmentLeds(prev, w, n - 1, encode, neighbours);
    if i < n - 1 {
      SegmentLedsClosedForm(prev, w, n - 1, encode, neighbours, i);
    } else if i > 0 {
      SegmentLedsClosedForm(prev, w, n - 1, encode, neighbours, i - 1);
      assert (i - 1) * w.dlatLED + w.dlatLED == i * w.dlatLED;
      assert (i - 1) * w.dlonLED + w.dlonLED == i * w.dlonLED;
    }
  }

  /**
   * The structure the builder gives a spur: waypoint k >= 1 yields segment k-1,
   * which copies that waypoint's segment id, holds exactly its LED count, and
   * whose LEDs follow the closed form of the accumulation.
   */
  lemma BuiltSegmentShape(segs: Spur, wps: seq<Waypoint>, encode: Encoder, neighbours: NeighbourFinder,
                          k: nat, i: nat)
    requires SpurBuiltFrom(segs, wps, encode, neighbours)
    requires 1 <= k < |wps|
    ensures |segs| == |wps| - 1
    ensures segs[k - 1].segment == wps[k].segment
    ensures |segs[k - 1].ledArray| == LedCount(wps[k])
    ensures i < LedCount(wps[k]) ==>
              segs[k - 1].ledArray[i]
              == MakeLed(wps[k - 1].lat + wps[k].dlatOffset + i * wps[k].dlatLED,
                         wps[k - 1].lon + wps[k].dlonOffset + i * wps[k].dlonLED, encode, neighbours)
  {
    if i < LedCount(wps[k]) {
      SegmentLedsClosedForm(wps[k - 1], wps[k], LedCount(wps[k]), encode, neighbours, i);
    }
  }

  /** Builds the segments of one spur from its waypoints (the builder's inner `forEach`). */
  method BuildSpur(segArray: seq<Waypoint>, encode: Encoder, neighbours: NeighbourFinder)
    returns (segLEDArray: Spur)
    ensures SpurBuiltFrom(segLEDArray, segArray, encode, neighbours)
  {
    segLEDArray := [];
    var segIndex := 0;
    while segIndex < |segArray|
      invariant 0 <= segIndex <= |segArray|
      invariant |segLEDArray| == if segIndex == 0 then 0 else segIndex - 1
      invariant forall k :: 0 <= k < |segLEDArray| ==>
                  segLEDArray[k] == SegmentFor(segArray[k], segArray[k + 1], encode, neighbours)
    {
      if segIndex > 0 {
        var prev := segArray[segIndex - 1];
        var segment := segArray[segIndex];
        var ledArray: seq<Led> := [];
        var ledIndex := 0;
        while ledIndex < segment.numLEDs
          invariant 0 <= ledIndex <= LedCount(segment)
          invariant ledArray == SegmentLeds(prev, segment, ledIndex, encode, neighbours)
        {
          var ledLon, ledLat;
          if ledIndex == 0 {
            ledLon := prev.lon + segment.dlonOffset;
            ledLat := prev.lat + segment.dlatOffset;
          } else {
            ledLon := ledArray[ledIndex - 1].ledLon + segment.dlonLED;
            ledLat := ledArray[ledIndex - 1].ledLat + segment.dlatLED;
          }
          var hash := encode(ledLat, ledLon);
          ledArray := ledArray + [Led(ledLat, ledLon, hash, neighbours(hash))];
          ledIndex := ledIndex + 1;
        }
        segLEDArray := segLEDArray + [Segment(segment.segment, ledArray)];
      }
      segIndex := segIndex + 1;
    }
  }

  /** Builds the LED geometry of a whole line, one spur after the other (the `close` handler). */
  method BuildLine(spursArray: seq<seq<Waypoint>>, encode: Encoder, neighbours: NeighbourFinder)
    returns (spursLEDArray: Line)
    ensures |spursLEDArray| == |spursArray|
    ensures forall s :: 0 <= s < |spursArray| ==>
              SpurBuiltFrom(spursLEDArray[s], spursArray[s], encode, neighbours)
  {
    spursLEDArray := [];
    var spursIndex := 0;
    while spursIndex < |spursArray|
      invariant 0 <= spursIndex <= |spursArray|
      invariant |spursLEDArray| == spursIndex
      invariant forall s :: 0 <= s < spursIndex ==>
                  SpurBuiltFrom(spursLEDArray[s], spursArray[s], encode, neighbours)
    {
      var segLEDArray := BuildSpur(spursArray[spursIndex], encode, neighbours);
      spursLEDArray := spursLEDArray + [segLEDArray];
      spursIndex := spursIndex + 1;
    }
  }
}
