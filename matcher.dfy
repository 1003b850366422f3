/**
 * Matching one reported train to the LED to light: "nine-box" candidate
 * generation over the whole line, the exact-geohash fast path, and the
 * first-minimum distance ranking.
 *
 * `geolib.getDistance` is not modelled: it is the `distance` parameter,
 * which returns whole metres.
 */
module Matcher {
  import opened Optional
  import opened Geometry
  import opened SpurPosition

  /** The fields of a train observation the matcher reads (coordinates in micro-degrees). */
  datatype Train = Train(latitude: int, longitude: int, geohash: Geohash)

  /** `geolib.getDistance` between two coordinates, in whole metres. */
  type Distance = (Coord, Coord) -> nat

  /** A possible match: an LED together with where it sits in the line. */
  datatype Candidate = Candidate(led: Led, spurIndex: nat, segmentIndex: nat, ledIndex: nat, spurLed: int)

  /** What is recorded for a matched train. */
  datatype MatchResult = MatchResult(spur: nat, segment: nat, segmentLed: nat, spurLed: int)

  /** The train's cell is the LED's own cell or one of the 8 cells around it. */
  predicate InNineBox(trainGeohash: Geohash, led: Led) {
    trainGeohash == led.geohash || trainGeohash in led.geohashNeighbors.Values()
  }

  /** `isInLEDNineBox`: compares the train's cell with the LED's cell, then with each neighbour. */
  method IsInLedNineBox(trainGeohash: Geohash, ledObject: Led) returns (r: bool)
    ensures r <==> (trainGeohash == ledObject.geohash ||
                    exists j :: 0 <= j < 8 && trainGeohash == ledObject.geohashNeighbors.Values()[j])
    ensures r == InNineBox(trainGeohash, ledObject)
  {
    if trainGeohash == ledObject.geohash {
      return true;
    }
    var values := ledObject.geohashNeighbors.Values();
    var retVal := false;
    var j := 0;
    while j < |values|
      invariant 0 <= j <= |values|
      invariant retVal <==> exists m :: 0 <= m < j && trainGeohash == values[m]
    {
      if trainGeohash == values[j] {
        retVal := true;
      }
      j := j + 1;
    }
    return retVal;
  }

  // ---------------------------------------------------------------------------
  // Traversal order and candidates

  /** (s, k, i) names an LED of the line: spur s, segment k, LED i. */
  predicate IsSlot(line: Line, s: nat, k: nat, i: nat) {
    s < |line| && IsLedOf(line[s], k, i)
  }

  /** LED (s, k, i) is visited strictly before LED (s', k', i') in spur, segment, LED order. */
  predicate SlotBefore(s: nat, k: nat, i: nat, s': nat, k': nat, i': nat) {
    s < s' || (s == s' && TraversedBefore(k, i, k', i'))
  }

  predicate Before(c: Candidate, d: Candidate) {
    SlotBefore(c.spurIndex, c.segmentIndex, c.ledIndex, d.spurIndex, d.segmentIndex, d.ledIndex)
  }

  /** The candidates are listed in strictly increasing traversal order. */
  predicate InTraversalOrder(cs: seq<Candidate>) {
    forall a, b :: 0 <= a < b < |cs| ==> Before(cs[a], cs[b])
  }

  /** The candidate record the matcher builds for LED (s, k, i). */
  function SlotCandidate(line: Line, s: nat, k: nat, i: nat): Candidate
    requires IsSlot(line, s, k, i)
  {
    Candidate(line[s][k].ledArray[i], s, k, i, SpurLed(line[s], k, i))
  }

  /** `c` is the candidate record of an LED of the line whose nine-box holds the train's cell. */
  predicate Found(line: Line, trainGeohash: Geohash, c: Candidate) {
    && IsSlot(line, c.spurIndex, c.segmentIndex, c.ledIndex)
    && c == SlotCandidate(line, c.spurIndex, c.segmentIndex, c.ledIndex)
    && InNineBox(trainGeohash, c.led)
  }

  /** Candidates among the first `n` LEDs of segment `k` of spur `s`. */
  function SegmentCandidates(line: Line, g: Geohash, s: nat, k: nat, n: nat): seq<Candidate>
    requires s < |line| && k < |line[s]| && n <= |line[s][k].ledArray|
  {
    if n == 0 then []
    else
      SegmentCandidates(line, g, s, k, n - 1)
      + (if InNineBox(g, line[s][k].ledArray[n - 1]) then [SlotCandidate(line, s, k, n - 1)] else [])
  }

  /** Candidates among the first `n` segments of spur `s`. */
  function SpurCandidates(line: Line, g: Geohash, s: nat, n: nat): seq<Candidate>
    requires s < |line| && n <= |line[s]|
  {
    if n == 0 then []
    else SpurCandidates(line, g, s, n - 1) + SegmentCandidates(line, g, s, n - 1, |line[s][n - 1].ledArray|)
  }

  /** Candidates among the first `n` spurs of the line. */
  function LineCandidates(line: Line, g: Geohash, n: nat): seq<Candidate>
    requires n <= |line|
  {
    if n == 0 then []
    else LineCandidates(line, g, n - 1) + SpurCandidates(line, g, n - 1, |line[n - 1]|)
  }

  /** All candidates of the line for a train in cell `g`, in traversal order. */
  function Candidates(line: Line, g: Geohash): seq<Candidate> {
    LineCandidates(line, g, |line|)
  }

  lemma OrderedConcat(xs: seq<Candidate>, ys: seq<Candidate>)
    requires InTraversalOrder(xs) && InTraversalOrder(ys)
    requires forall x, y :: x in xs && y in ys ==> Before(x, y)
    ensures InTraversalOrder(xs + ys)
  {
    var zs := xs + ys;
    forall a, b | 0 <= a < b < |zs| ensures Before(zs[a], zs[b]) {
      if b < |xs| {
        assert zs[a] == xs[a] && zs[b] == xs[b];
      } else if a >= |xs| {
        assert zs[a] == ys[a - |xs|] && zs[b] == ys[b - |xs|];
      } else {
        assert zs[a] in xs && zs[b] in ys;
      }
    }
  }

  lemma {:induction false} SegmentCandidatesFacts(line: Line, g: Geohash, s: nat, k: nat, n: nat)
    requires s < |line| && k < |line[s]| && n <= |line[s][k].ledArray|
    ensures forall c :: c in SegmentCandidates(line, g, s, k, n) ==>
              Found(line, g, c) && c.spurIndex == s && c.segmentIndex == k && c.ledIndex < n
    ensures forall i :: 0 <= i < n && InNineBox(g, line[s][k].ledArray[i]) ==>
              SlotCandidate(line, s, k, i) in SegmentCandidates(line, g, s, k, n)
    ensures InTraversalOrder(SegmentCandidates(line, g, s, k, n))
  {
    if n > 0 {
      SegmentCandidatesFacts(line, g, s, k, n - 1);
      var tail := if InNineBox(g, line[s][k].ledArray[n - 1]) then [SlotCandidate(line, s, k, n - 1)] else [];
      OrderedConcat(SegmentCandidates(line, g, s, k, n - 1), tail);
    }
  }

  lemma {:induction false} SpurCandidatesFacts(line: Line, g: Geohash, s: nat, n: nat)
    requires s < |line| && n <= |line[s]|
    ensures forall c :: c in SpurCandidates(line, g, s, n) ==>
              Found(line, g, c) && c.spurIndex == s && c.segmentIndex < n
    ensures forall k: nat, i: nat :: k < n && IsLedOf(line[s], k, i) && InNineBox(g, line[s][k].ledArray[i]) ==>
              SlotCandidate(line, s, k, i) in SpurCandidates(line, g, s, n)
    ensures InTraversalOrder(SpurCandidates(line, g, s, n))
  {
    if n > 0 {
      SpurCandidatesFacts(line, g, s, n - 1);
      SegmentCandidatesFacts(line, g, s, n - 1, |line[s][n - 1].ledArray|);
      OrderedConcat(SpurCandidates(line, g, s, n - 1),
                    SegmentCandidates(line, g, s, n - 1, |line[s][n - 1].ledArray|));
    }
  }

  lemma {:induction false} LineCandidatesFacts(line: Line, g: Geohash, n: nat)
    requires n <= |line|
    ensures forall c :: c in LineCandidates(line, g, n) ==> Found(line, g, c) && c.spurIndex < n
    ensures forall s: nat, k: nat, i: nat :: s < n && IsSlot(line, s, k, i) && InNineBox(g, line[s][k].ledArray[i]) ==>
              SlotCandidate(line, s, k, i) in LineCandidates(line, g, n)
    ensures InTraversalOrder(LineCandidates(line, g, n))
  {
    if n > 0 {
      LineCandidatesFacts(line, g, n - 1);
      SpurCandidatesFacts(line, g, n - 1, |line[n - 1]|);
      OrderedConcat(LineCandidates(line, g, n - 1), SpurCandidates(line, g, n - 1, |line[n - 1]|));
    }
  }

  /**
   * An LED is a candidate iff the train's cell lies in its nine-box; every
   * candidate is the record of such an LED; candidates are listed in spur,
   * then segment, then LED order.
   */
  lemma CandidatesExactly(line: Line, g: Geohash)
    ensures forall c :: c in Candidates(line, g) ==> Found(line, g, c)
    ensures forall s: nat, k: nat, i: nat :: IsSlot(line, s, k, i) ==>
              (SlotCandidate(line, s, k, i) in Candidates(line, g) <==> InNineBox(g, line[s][k].ledArray[i]))
    ensures InTraversalOrder(Candidates(line, g))
  {
    LineCandidatesFacts(line, g, |line|);
  }

  /** The spur → segment → LED walk of `matchLedWithTrain`, collecting the nine-box candidates. */
  method PossibleMatches(lineArray: Line, trainGeohash: Geohash) returns (possibleMatches: seq<Candidate>)
    ensures possibleMatches == Candidates(lineArray, trainGeohash)
  {
    possibleMatches := [];
    var spurIndex := 0;
    while spurIndex < |lineArray|
      invariant 0 <= spurIndex <= |lineArray|
      invariant possibleMatches == LineCandidates(lineArray, trainGeohash, spurIndex)
    {
      var spurArray := lineArray[spurIndex];
      var segmentIndex := 0;
      while segmentIndex < |spurArray|
        invariant 0 <= segmentIndex <= |spurArray|
        invariant possibleMatches == LineCandidates(lineArray, trainGeohash, spurIndex)
                                     + SpurCandidates(lineArray, trainGeohash, spurIndex, segmentIndex)
      {
        var ledArray := spurArray[segmentIndex].ledArray;
        var ledIndex := 0;
        while ledIndex < |ledArray|
          invariant 0 <= ledIndex <= |ledArray|
          invariant possibleMatches == LineCandidates(lineArray, trainGeohash, spurIndex)
                                       + SpurCandidates(lineArray, trainGeohash, spurIndex, segmentIndex)
                                       + SegmentCandidates(lineArray, trainGeohash, spurIndex, segmentIndex, ledIndex)
        {
          var led := ledArray[ledIndex];
          var inBox := IsInLedNineBox(trainGeohash, led);
          if inBox {
            var spurLed := GetSpurLedCount(lineArray, spurIndex, segmentIndex, ledIndex);
            possibleMatches := possibleMatches + [Candidate(led, spurIndex, segmentIndex, ledIndex, spurLed)];
          }
          ledIndex := ledIndex + 1;
        }
        segmentIndex := segmentIndex + 1;
      }
      spurIndex := spurIndex + 1;
    }
  }

  // ---------------------------------------------------------------------------
  // Exact matches and distance ranking

  /** The candidates among the first `n` whose own cell is the train's cell, in order. */
  function ExactPrefix(cs: seq<Candidate>, g: Geohash, n: nat): seq<Candidate>
    requires n <= |cs|
  {
    if n == 0 then []
    else ExactPrefix(cs, g, n - 1) + (if cs[n - 1].led.geohash == g then [cs[n - 1]] else [])
  }

  /** The exact matches: candidates whose own cell is the train's cell. */
  function ExactMatches(cs: seq<Candidate>, g: Geohash): seq<Candidate> {
    ExactPrefix(cs, g, |cs|)
  }

  lemma {:induction false} ExactPrefixFacts(cs: seq<Candidate>, g: Geohash, n: nat)
    requires n <= |cs|
    ensures forall c :: c in ExactPrefix(cs, g, n) ==> c in cs[..n] && c.led.geohash == g
    ensures forall j :: 0 <= j < n && cs[j].led.geohash == g ==> cs[j] in ExactPrefix(cs, g, n)
    ensures InTraversalOrder(cs) ==> InTraversalOrder(ExactPrefix(cs, g, n))
    ensures InTraversalOrder(cs) ==>
              forall c, m :: c in ExactPrefix(cs, g, n) && n <= m < |cs| ==> Before(c, cs[m])
  {
    if n > 0 {
      ExactPrefixFacts(cs, g, n - 1);
      assert cs[..n] == cs[..n - 1] + [cs[n - 1]];
      if InTraversalOrder(cs) {
        var tail := if cs[n - 1].led.geohash == g then [cs[n - 1]] else [];
        OrderedConcat(ExactPrefix(cs, g, n - 1), tail);
      }
    }
  }

  /**
   * The exact matches are exactly the candidates whose cell is the train's,
   * and they keep the candidates' traversal order.
   */
  lemma ExactMatchesExactly(cs: seq<Candidate>, g: Geohash)
    ensures forall c :: c in ExactMatches(cs, g) <==> c in cs && c.led.geohash == g
    ensures InTraversalOrder(cs) ==> InTraversalOrder(ExactMatches(cs, g))
  {
    ExactPrefixFacts(cs, g, |cs|);
    assert cs[..|cs|] == cs;
    forall c | c in cs && c.led.geohash == g ensures c in ExactMatches(cs, g) {
      var j :| 0 <= j < |cs| && cs[j] == c;
    }
  }

  /** The distance from the train to a candidate's LED. */
  function DistanceTo(train: Train, c: Candidate, distance: Distance): nat {
    distance(Coord(train.latitude, train.longitude), Coord(c.led.ledLat, c.led.ledLon))
  }

  /** Index of the first closest of the first `n` ranked candidates, as the ranking loop finds it. */
  function Closest(train: Train, ranked: seq<Candidate>, n: nat, distance: Distance): (r: Option<nat>)
    requires n <= |ranked|
    ensures r.Some? ==> r.value < n
  {
    if n == 0 then None
    else
      var p := Closest(train, ranked, n - 1, distance);
      if p.None? || DistanceTo(train, ranked[n - 1], distance) < DistanceTo(train, ranked[p.value], distance)
      then Some(n - 1)
      else p
  }

  /**
   * `ranked[j]` is the first of the first `n` ranked candidates at the least
   * distance: no candidate is closer, and every earlier one is farther.
   */
  predicate IsFirstClosest(train: Train, ranked: seq<Candidate>, n: nat, distance: Distance, j: nat)
    requires n <= |ranked|
  {
    && j < n
    && (forall m :: 0 <= m < n ==> DistanceTo(train, ranked[j], distance) <= DistanceTo(train, ranked[m], distance))
    && (forall m :: 0 <= m < j ==> DistanceTo(train, ranked[j], distance) < DistanceTo(train, ranked[m], distance))
  }

  lemma {:induction false} ClosestIsFirstMinimum(train: Train, ranked: seq<Candidate>, n: nat, distance: Distance)
    requires n <= |ranked|
    ensures Closest(train, ranked, n, distance).None? <==> n == 0
    ensures n > 0 ==> IsFirstClosest(train, ranked, n, distance, Closest(train, ranked, n, distance).value)
  {
    if n > 0 {
      ClosestIsFirstMinimum(train, ranked, n - 1, distance);
    }
  }

  /**
   * `pickExactMatch`: a single exact match wins outright; with none, every
   * candidate is ranked; with two or more, only the exact matches are.
   */
  function PickExact(train: Train, cands: seq<Candidate>, distance: Distance): Option<Candidate> {
    var exact := ExactMatches(cands, train.geohash);
    if |exact| == 1 then Some(exact[0])
    else
      var ranked := if |exact| == 0 then cands else exact;
      match Closest(train, ranked, |ranked|, distance)
      case None => None
      case Some(j) => Some(ranked[j])
  }

  /** The list the fallback ranks by distance. */
  function RankedMatches(cands: seq<Candidate>, g: Geohash): seq<Candidate> {
    var exact := ExactMatches(cands, g);
    if |exact| == 0 then cands else exact
  }

  /** `pickExactMatch`: filters the exact matches, then ranks by distance with a strict `<`. */
  method PickExactMatch(trainPosition: Train, possibleMatches: seq<Candidate>, distance: Distance)
    returns (exactMatch: Option<Candidate>)
    ensures exactMatch == PickExact(trainPosition, possibleMatches, distance)
  {
    var prunedMatches: seq<Candidate> := [];
    var idx := 0;
    while idx < |possibleMatches|
      invariant 0 <= idx <= |possibleMatches|
      invariant prunedMatches == ExactPrefix(possibleMatches, trainPosition.geohash, idx)
    {
      if possibleMatches[idx].led.geohash == trainPosition.geohash {
        prunedMatches := prunedMatches + [possibleMatches[idx]];
      }
      idx := idx + 1;
    }
    if |prunedMatches| == 1 {
      return Some(prunedMatches[0]);
    } else if |prunedMatches| == 0 {
      prunedMatches := possibleMatches;
    }
    exactMatch := None;
    var closestDistance: Option<nat> := None;
    ghost var best: Option<nat> := None;
    var j := 0;
    while j < |prunedMatches|
      invariant 0 <= j <= |prunedMatches|
      invariant best == Closest(trainPosition, prunedMatches, j, distance)
      invariant best.None? ==> exactMatch.None? && closestDistance.None?
      invariant best.Some? ==> exactMatch == Some(prunedMatches[best.value])
      invariant best.Some? ==>
                  closestDistance == Some(DistanceTo(trainPosition, prunedMatches[best.value], distance))
    {
      var possibleMatch := prunedMatches[j];
      var d := distance(Coord(trainPosition.latitude, trainPosition.longitude),
                        Coord(possibleMatch.led.ledLat, possibleMatch.led.ledLon));
      if closestDistance.None? {
        closestDistance := Some(d);
        exactMatch := Some(possibleMatch);
        best := Some(j);
      } else if d < closestDistance.value {
        closestDistance := Some(d);
        exactMatch := Some(possibleMatch);
        best := Some(j);
      }
      j := j + 1;
    }
  }

  /** Fast path: a single exact match is returned, whatever the distances. */
  lemma PickFastPath(train: Train, cands: seq<Candidate>, distance: Distance, other: Distance)
    requires |ExactMatches(cands, train.geohash)| == 1
    ensures PickExact(train, cands, distance) == PickExact(train, cands, other)
    ensures var c := ExactMatches(cands, train.geohash)[0];
            PickExact(train, cands, distance) == Some(c) && c in cands && c.led.geohash == train.geohash
  {
    ExactMatchesExactly(cands, train.geohash);
  }

  /**
   * Fallback: with zero or several exact matches, the result is the first
   * ranked candidate at the least distance.
   */
  lemma PickFallback(train: Train, cands: seq<Candidate>, distance: Distance)
    requires |ExactMatches(cands, train.geohash)| != 1
    requires |cands| > 0
    ensures var ranked := RankedMatches(cands, train.geohash);
            exists j: nat :: IsFirstClosest(train, ranked, |ranked|, distance, j)
                        && PickExact(train, cands, distance) == Some(ranked[j])
  {
    var ranked := RankedMatches(cands, train.geohash);
    ClosestIsFirstMinimum(train, ranked, |ranked|, distance);
    var j := Closest(train, ranked, |ranked|, distance).value;
    assert IsFirstClosest(train, ranked, |ranked|, distance, j);
  }

  /** There is no pick iff there is no candidate; a pick is always one of the candidates. */
  lemma PickNoneIffNoCandidates(train: Train, cands: seq<Candidate>, distance: Distance)
    ensures PickExact(train, cands, distance).None? <==> |cands| == 0
    ensures PickExact(train, cands, distance).Some? ==> PickExact(train, cands, distance).value in cands
  {
    ExactMatchesExactly(cands, train.geohash);
    var ranked := RankedMatches(cands, train.geohash);
    ClosestIsFirstMinimum(train, ranked, |ranked|, distance);
  }

  // ---------------------------------------------------------------------------
  // Matching a train against a line

  function ToMatchResult(c: Candidate): MatchResult {
    MatchResult(c.spurIndex, c.segmentIndex, c.ledIndex, c.spurLed)
  }

  /** `matchLedWithTrain` as a function: the picked candidate's place, or none. */
  function MatchLed(line: Line, train: Train, distance: Distance): Option<MatchResult> {
    match PickExact(train, Candidates(line, train.geohash), distance)
    case None => None
    case Some(c) => Some(ToMatchResult(c))
  }

  /** `matchLedWithTrain`: collects the candidates, then picks one. */
  method MatchLedWithTrain(lineArray: Line, trainPosition: Train, distance: Distance)
    returns (r: Option<MatchResult>)
    ensures r == MatchLed(lineArray, trainPosition, distance)
  {
    var possibleMatches := PossibleMatches(lineArray, trainPosition.geohash);
    var exactMatch := PickExactMatch(trainPosition, possibleMatches, distance);
    if exactMatch.Some? {
      r := Some(MatchResult(exactMatch.value.spurIndex, exactMatch.value.segmentIndex,
                            exactMatch.value.ledIndex, exactMatch.value.spurLed));
    } else {
      r := None;
    }
  }

  /** A train is matched iff some LED's nine-box holds its cell. */
  lemma MatchNoneIffNoNineBox(line: Line, train: Train, distance: Distance)
    ensures MatchLed(line, train, distance).None? <==>
              forall s: nat, k: nat, i: nat :: IsSlot(line, s, k, i) ==> !InNineBox(train.geohash, line[s][k].ledArray[i])
  {
    var g := train.geohash;
    CandidatesExactly(line, g);
    PickNoneIffNoCandidates(train, Candidates(line, g), distance);
    if |Candidates(line, g)| > 0 {
      var c := Candidates(line, g)[0];
      assert Found(line, g, c);
    }
  }

  /**
   * A match names an LED of the line whose nine-box holds the train's cell,
   * and carries that LED's position along its spur.
   */
  lemma MatchIsNineBoxLed(line: Line, train: Train, distance: Distance)
    requires MatchLed(line, train, distance).Some?
    ensures var m := MatchLed(line, train, distance).value;
            && IsSlot(line, m.spur, m.segment, m.segmentLed)
            && InNineBox(train.geohash, line[m.spur][m.segment].ledArray[m.segmentLed])
            && m.spurLed == SpurLed(line[m.spur], m.segment, m.segmentLed)
            && 1 <= m.spurLed <= TotalLeds(line[m.spur])
  {
    var g := train.geohash;
    CandidatesExactly(line, g);
    PickNoneIffNoCandidates(train, Candidates(line, g), distance);
    var c := PickExact(train, Candidates(line, g), distance).value;
    assert Found(line, g, c);
    SpurLedInRange(line[c.spurIndex], c.segmentIndex, c.ledIndex);
  }

  /** In a strictly ordered list, equal elements sit at equal indices. */
  lemma OrderedIndexOf(cs: seq<Candidate>, a: nat, b: nat)
    requires InTraversalOrder(cs)
    requires a < |cs| && b < |cs|
    requires Before(cs[a], cs[b]) || cs[a] == cs[b]
    ensures a <= b
  {
    var x, y := cs[a], cs[b];
    assert !(Before(y, x) && (Before(x, y) || x == y));
  }

  /**
   * If the train's cell is the own cell of exactly one LED of the line, that
   * LED is matched, whatever the distances.
   */
  lemma MatchUniqueExact(line: Line, train: Train, distance: Distance, s: nat, k: nat, i: nat)
    requires IsSlot(line, s, k, i) && line[s][k].ledArray[i].geohash == train.geohash
    requires forall s': nat, k': nat, i': nat :: IsSlot(line, s', k', i') && line[s'][k'].ledArray[i'].geohash == train.geohash
               ==> s' == s && k' == k && i' == i
    ensures MatchLed(line, train, distance) == Some(MatchResult(s, k, i, SpurLed(line[s], k, i)))
  {
    var g := train.geohash;
    var cands := Candidates(line, g);
    CandidatesExactly(line, g);
    ExactMatchesExactly(cands, g);
    var exact := ExactMatches(cands, g);
    var c := SlotCandidate(line, s, k, i);
    forall x | x in cands && x.led.geohash == g ensures x == c {
      assert Found(line, g, x);
    }
    SingleExact(cands, g, c, |cands|);
    assert cands[..|cands|] == cands;
  }

  /** When every candidate in cell `g` is `c`, the exact matches are `c` alone, if it occurs. */
  lemma {:induction false} SingleExact(cs: seq<Candidate>, g: Geohash, c: Candidate, n: nat)
    requires n <= |cs| && InTraversalOrder(cs) && c.led.geohash == g
    requires forall x :: x in cs && x.led.geohash == g ==> x == c
    ensures ExactPrefix(cs, g, n) == if c in cs[..n] then [c] else []
  {
    if n > 0 {
      SingleExact(cs, g, c, n - 1);
      assert cs[..n] == cs[..n - 1] + [cs[n - 1]];
      if cs[n - 1].led.geohash == g {
        assert cs[n - 1] == c;
        forall j | 0 <= j < n - 1 ensures cs[j] != c {
          assert Before(cs[j], cs[n - 1]);
        }
      }
    }
  }

  /**
   * No LED's own cell is the train's cell: the match is, among all nine-box
   * LEDs, one at the least distance, and every nine-box LED visited before
   * it is strictly farther.
   */
  lemma MatchNearestWithoutExact(line: Line, train: Train, distance: Distance)
    requires forall s: nat, k: nat, i: nat :: IsSlot(line, s, k, i) ==> line[s][k].ledArray[i].geohash != train.geohash
    requires MatchLed(line, train, distance).Some?
    ensures var m := MatchLed(line, train, distance).value;
            && IsSlot(line, m.spur, m.segment, m.segmentLed)
            && forall s: nat, k: nat, i: nat :: IsSlot(line, s, k, i) && InNineBox(train.geohash, line[s][k].ledArray[i]) ==>
                 var here := SlotCandidate(line, s, k, i);
                 var best := SlotCandidate(line, m.spur, m.segment, m.segmentLed);
                 && DistanceTo(train, best, distance) <= DistanceTo(train, here, distance)
                 && (SlotBefore(s, k, i, m.spur, m.segment, m.segmentLed) ==>
                       DistanceTo(train, best, distance) < DistanceTo(train, here, distance))
  {
    var g := train.geohash;
    var cands := Candidates(line, g);
    CandidatesExactly(line, g);
    ExactMatchesExactly(cands, g);
    forall x | x in cands ensures x.led.geohash != g {
      assert Found(line, g, x);
    }
    assert |ExactMatches(cands, g)| == 0;
    PickNoneIffNoCandidates(train, cands, distance);
    PickFallback(train, cands, distance);
    var j: nat :| IsFirstClosest(train, cands, |cands|, distance, j) && PickExact(train, cands, distance) == Some(cands[j]);
    NearestAmong(line, train, distance, cands, j);
  }

  /**
   * Two or more LEDs have the train's cell as their own: the match is, among
   * those LEDs only, one at the least distance, and every such LED visited
   * before it is strictly farther.
   */
  lemma MatchNearestAmongExact(line: Line, train: Train, distance: Distance,
                               s1: nat, k1: nat, i1: nat, s2: nat, k2: nat, i2: nat)
    requires IsSlot(line, s1, k1, i1) && line[s1][k1].ledArray[i1].geohash == train.geohash
    requires IsSlot(line, s2, k2, i2) && line[s2][k2].ledArray[i2].geohash == train.geohash
    requires (s1, k1, i1) != (s2, k2, i2)
    ensures MatchLed(line, train, distance).Some?
    ensures var m := MatchLed(line, train, distance).value;
            && IsSlot(line, m.spur, m.segment, m.segmentLed)
            && line[m.spur][m.segment].ledArray[m.segmentLed].geohash == train.geohash
            && forall s: nat, k: nat, i: nat :: IsSlot(line, s, k, i) && line[s][k].ledArray[i].geohash == train.geohash ==>
                 var here := SlotCandidate(line, s, k, i);
                 var best := SlotCandidate(line, m.spur, m.segment, m.segmentLed);
                 && DistanceTo(train, best, distance) <= DistanceTo(train, here, distance)
                 && (SlotBefore(s, k, i, m.spur, m.segment, m.segmentLed) ==>
                       DistanceTo(train, best, distance) < DistanceTo(train, here, distance))
  {
    var g := train.geohash;
    var cands := Candidates(line, g);
    CandidatesExactly(line, g);
    ExactMatchesExactly(cands, g);
    var exact := ExactMatches(cands, g);
    var c1, c2 := SlotCandidate(line, s1, k1, i1), SlotCandidate(line, s2, k2, i2);
    assert c1 in exact && c2 in exact && c1 != c2;
    assert |exact| >= 2;
    PickFallback(train, cands, distance);
    var j: nat :| IsFirstClosest(train, exact, |exact|, distance, j) && PickExact(train, cands, distance) == Some(exact[j]);
    assert exact[j] in exact;
    NearestAmong(line, train, distance, exact, j);
  }

  /** Turns the first-closest index of an ordered list of found candidates into slot terms. */
  lemma NearestAmong(line: Line, train: Train, distance: Distance, ranked: seq<Candidate>, j: nat)
    requires InTraversalOrder(ranked)
    requires forall c :: c in ranked ==> Found(line, train.geohash, c)
    requires IsFirstClosest(train, ranked, |ranked|, distance, j)
    ensures Found(line, train.geohash, ranked[j])
    ensures forall s: nat, k: nat, i: nat :: IsSlot(line, s, k, i) && SlotCandidate(line, s, k, i) in ranked ==>
              var here := SlotCandidate(line, s, k, i);
              && DistanceTo(train, ranked[j], distance) <= DistanceTo(train, here, distance)
              && (SlotBefore(s, k, i, ranked[j].spurIndex, ranked[j].segmentIndex, ranked[j].ledIndex) ==>
                    DistanceTo(train, ranked[j], distance) < DistanceTo(train, here, distance))
  {
    assert ranked[j] in ranked;
    forall s: nat, k: nat, i: nat | IsSlot(line, s, k, i) && SlotCandidate(line, s, k, i) in ranked
      ensures DistanceTo(train, ranked[j], distance) <= DistanceTo(train, SlotCandidate(line, s, k, i), distance)
      ensures SlotBefore(s, k, i, ranked[j].spurIndex, ranked[j].segmentIndex, ranked[j].ledIndex) ==>
                DistanceTo(train, ranked[j], distance) < DistanceTo(train, SlotCandidate(line, s, k, i), distance)
    {
      var m :| 0 <= m < |ranked| && ranked[m] == SlotCandidate(line, s, k, i);
      if SlotBefore(s, k, i, ranked[j].spurIndex, ranked[j].segmentIndex, ranked[j].ledIndex) {
        OrderedIndexOf(ranked, m, j);
        assert m != j;
      }
    }
  }

  // ---------------------------------------------------------------------------
  // One line's trains

  /**
   * `processFetchedLineData`: one match per train, in feed order; a missing
   * train list gives no matches.
   */
  method ProcessFetchedLineData(lineArray: Line, trainPositionArray: Option<seq<Train>>, distance: Distance)
    returns (ledArray: seq<Option<MatchResult>>)
    ensures trainPositionArray.None? ==> ledArray == []
    ensures trainPositionArray.Some? ==>
              && |ledArray| == |trainPositionArray.value|
              && forall j :: 0 <= j < |ledArray| ==>
                   ledArray[j] == MatchLed(lineArray, trainPositionArray.value[j], distance)
  {
    ledArray := [];
    if trainPositionArray.Some? {
      var trains := trainPositionArray.value;
      var j := 0;
      while j < |trains|
        invariant 0 <= j <= |trains|
        invariant |ledArray| == j
        invariant forall m :: 0 <= m < j ==> ledArray[m] == MatchLed(lineArray, trains[m], distance)
      {
        var r := MatchLedWithTrain(lineArray, trains[j], distance);
        ledArray := ledArray + [r];
        j := j + 1;
      }
    }
  }
}
