/**
 * The two renderings of the UP-NW line's matches: the list of LED commands
 * posted to the LED controller, and the two text rows of the strip
 * simulation. Only the building of these lists is modelled; the POST and the
 * console output are not.
 */
module Display {
  import opened Optional
  import opened Matcher

  /** Strip positions of the landmarks, worked out outside the program. */
  const PALATINE_LED := 78
  const HARVARD_LED := 182
  const MCHENRY_LED := 21
  const SPUR_JUNCTION_POSITION := 37

  /** Added to McHenry-spur positions so that both spurs fit one continuous strand. */
  const MCHENRY_STRAND_OFFSET := 220

  datatype Color = Blue | Cyan | Green

  /** One `{position, color}` entry of the body posted to the LED controller. */
  datatype LedCommand = LedCommand(position: int, color: Color)

  /** `Math.floor(x / 2)`: Dafny's integer division by a positive divisor rounds down. */
  function Halve(x: int): (r: int)
    ensures 2 * r <= x < 2 * r + 2
  {
    x / 2
  }

  // ---------------------------------------------------------------------------
  // LED command list

  /** The strand index a match lights (none if its spur is not drawn on the strand). */
  function LitBy(r: Option<MatchResult>): seq<int> {
    if r.Some? && r.value.spur == 0 then [r.value.spurLed]
    else if r.Some? && r.value.spur == 1 then [r.value.spurLed + MCHENRY_STRAND_OFFSET]
    else []
  }

  /** The strand indices lit by the first `n` matches, in match order. */
  function StrandIndices(leds: seq<Option<MatchResult>>, n: nat): seq<int>
    requires n <= |leds|
  {
    if n == 0 then []
    else StrandIndices(leds, n - 1) + LitBy(leds[n - 1])
  }

  /** `ledLightArray`: the strand indices lit by all matches. */
  function LitStrandIndices(leds: seq<Option<MatchResult>>): seq<int> {
    StrandIndices(leds, |leds|)
  }

  /** The command for one lit strand index: squeezed 2:1, cyan on a station, green elsewhere. */
  function CommandFor(ledIndex: int): LedCommand {
    var position := Halve(ledIndex);
    LedCommand(position, if position == 0 || position == Halve(PALATINE_LED) then Cyan else Green)
  }

  /** The array-building part of `ledDisplayUPNW`. */
  method LedDisplayCommands(leds: seq<Option<MatchResult>>) returns (postBodyArray: seq<LedCommand>)
    ensures |postBodyArray| == 2 + |LitStrandIndices(leds)|
    ensures postBodyArray[0] == LedCommand(0, Blue) && postBodyArray[1] == LedCommand(39, Blue)
    ensures forall j :: 2 <= j < |postBodyArray| ==>
              && postBodyArray[j].position == Halve(LitStrandIndices(leds)[j - 2])
              && (postBodyArray[j].color == Cyan <==>
                    postBodyArray[j].position == 0 || postBodyArray[j].position == 39)
              && postBodyArray[j].color != Blue
  {
    var ledLightArray: seq<int> := [];
    var palatine := Halve(PALATINE_LED);
    postBodyArray := [LedCommand(0, Blue), LedCommand(palatine, Blue)];
    var j := 0;
    while j < |leds|
      invariant 0 <= j <= |leds|
      invariant ledLightArray == StrandIndices(leds, j)
    {
      var ledObject := leds[j];
      if ledObject.Some? {
        if ledObject.value.spur == 0 {
          ledLightArray := ledLightArray + [ledObject.value.spurLed];
        }
        if ledObject.value.spur == 1 {
          ledLightArray := ledLightArray + [ledObject.value.spurLed + MCHENRY_STRAND_OFFSET];
        }
      }
      j := j + 1;
    }
    var k := 0;
    while k < |ledLightArray|
      invariant 0 <= k <= |ledLightArray|
      invariant |postBodyArray| == 2 + k
      invariant postBodyArray[0] == LedCommand(0, Blue) && postBodyArray[1] == LedCommand(39, Blue)
      invariant forall m :: 0 <= m < k ==> postBodyArray[m + 2] == CommandFor(ledLightArray[m])
    {
      var newPosition := Halve(ledLightArray[k]);
      var newColor := if newPosition == 0 || newPosition == palatine then Cyan else Green;
      postBodyArray := postBodyArray + [LedCommand(newPosition, newColor)];
      k := k + 1;
    }
  }

  /** Strand indices of a concatenation are those of the parts, in order. */
  lemma {:induction false} StrandIndicesConcat(a: seq<Option<MatchResult>>, b: seq<Option<MatchResult>>)
    ensures LitStrandIndices(a + b) == LitStrandIndices(a) + LitStrandIndices(b)
    decreases |b|
  {
    if |b| > 0 {
      var b' := b[..|b| - 1];
      assert (a + b)[..|a + b| - 1] == a + b';
      PrefixIndices(a + b);
      PrefixIndices(b);
      StrandIndicesConcat(a, b');
      assert (a + b)[|a + b| - 1] == b[|b| - 1];
    } else {
      assert a + b == a;
    }
  }

  lemma PrefixIndices(leds: seq<Option<MatchResult>>)
    requires |leds| > 0
    ensures LitStrandIndices(leds)
         == LitStrandIndices(leds[..|leds| - 1])
            + LitBy(leds[|leds| - 1])
  {
    PrefixAgrees(leds, leds[..|leds| - 1], |leds| - 1);
  }

  lemma {:induction false} PrefixAgrees(leds: seq<Option<MatchResult>>, p: seq<Option<MatchResult>>, n: nat)
    requires n <= |p| <= |leds| && p[..n] == leds[..n]
    ensures StrandIndices(leds, n) == StrandIndices(p, n)
  {
    if n > 0 {
      assert leds[n - 1] == leds[..n][n - 1] == p[n - 1];
      assert p[..n - 1] == p[..n][..n - 1];
      assert leds[..n - 1] == leds[..n][..n - 1];
      PrefixAgrees(leds, p, n - 1);
    }
  }

  /**
   * A strand index is lit iff some match on the main spur sits there, or some
   * match on the McHenry spur sits 220 below it.
   */
  lemma {:induction false} StrandIndicesExactly(leds: seq<Option<MatchResult>>, n: nat)
    requires n <= |leds|
    ensures forall x :: x in StrandIndices(leds, n) <==>
              exists j :: 0 <= j < n && leds[j].Some? &&
                ((leds[j].value.spur == 0 && x == leds[j].value.spurLed) ||
                 (leds[j].value.spur == 1 && x == leds[j].value.spurLed + MCHENRY_STRAND_OFFSET))
  {
    if n > 0 {
      StrandIndicesExactly(leds, n - 1);
    }
  }

  // ---------------------------------------------------------------------------
  // Text strip

  /** `spurLed` of the first `n` matches that lie on spur `spur`, in match order. */
  function OccupiedPrefix(leds: seq<Option<MatchResult>>, spur: nat, n: nat): seq<int>
    requires n <= |leds|
  {
    if n == 0 then []
    else
      OccupiedPrefix(leds, spur, n - 1)
      + (if leds[n - 1].Some? && leds[n - 1].value.spur == spur then [leds[n - 1].value.spurLed] else [])
  }

  /** The occupied positions of spur `spur`. */
  function Occupied(leds: seq<Option<MatchResult>>, spur: nat): seq<int> {
    OccupiedPrefix(leds, spur, |leds|)
  }

  /** A position of a spur is occupied iff some match lies on that spur at that position. */
  lemma {:induction false} OccupiedExactly(leds: seq<Option<MatchResult>>, spur: nat, n: nat)
    requires n <= |leds|
    ensures forall x :: x in OccupiedPrefix(leds, spur, n) <==>
              exists j :: 0 <= j < n && leds[j].Some? && leds[j].value.spur == spur && leds[j].value.spurLed == x
  {
    if n > 0 {
      OccupiedExactly(leds, spur, n - 1);
    }
  }

  /** Main-row character at strip position `i`: a train wins over any landmark. */
  function MainCell(occupied: seq<int>, i: int): char {
    if i in occupied then '%'
    else if i == 0 then 'O'
    else if i == PALATINE_LED then 'P'
    else if i == HARVARD_LED then 'H'
    else '='
  }

  /** Spur-row character at position `i` of the McHenry spur. */
  function SpurCell(occupied: seq<int>, i: int): char {
    if i in occupied then '%'
    else if i == MCHENRY_LED then 'M'
    else if i == 0 then ' '
    else '='
  }

  /**
   * The row-building part of `textDisplayUPNW`: the main row runs from
   * Harvard (left) down to Ogilvie (right); the spur row is indented to the
   * junction and runs from McHenry down to the junction.
   */
  method TextDisplayRows(leds: seq<Option<MatchResult>>) returns (spurRow: string, mainRow: string)
    ensures |mainRow| == HARVARD_LED + 1
    ensures forall i :: 0 <= i <= HARVARD_LED ==>
              (mainRow[HARVARD_LED - i] == '%' <==> i in Occupied(leds, 0))
    ensures forall i :: 0 <= i <= HARVARD_LED && i !in Occupied(leds, 0) ==>
              mainRow[HARVARD_LED - i] ==
                if i == 0 then 'O' else if i == PALATINE_LED then 'P' else if i == HARVARD_LED then 'H' else '='
    ensures |spurRow| == SPUR_JUNCTION_POSITION + MCHENRY_LED + 1
    ensures forall j :: 0 <= j < SPUR_JUNCTION_POSITION ==> spurRow[j] == ' '
    ensures forall i :: 0 <= i <= MCHENRY_LED ==>
              (spurRow[SPUR_JUNCTION_POSITION + MCHENRY_LED - i] == '%' <==> i in Occupied(leds, 1))
    ensures forall i :: 0 <= i <= MCHENRY_LED && i !in Occupied(leds, 1) ==>
              spurRow[SPUR_JUNCTION_POSITION + MCHENRY_LED - i] ==
                if i == MCHENRY_LED then 'M' else if i == 0 then ' ' else '='
  {
    var mainLedPositions: seq<int> := [];
    var spurLedPositions: seq<int> := [];
    var j := 0;
    while j < |leds|
      invariant 0 <= j <= |leds|
      invariant mainLedPositions == OccupiedPrefix(leds, 0, j)
      invariant spurLedPositions == OccupiedPrefix(leds, 1, j)
    {
      var ledObject := leds[j];
      if ledObject.Some? {
        if ledObject.value.spur == 0 {
          mainLedPositions := mainLedPositions + [ledObject.value.spurLed];
        }
        if ledObject.value.spur == 1 {
          spurLedPositions := spurLedPositions + [ledObject.value.spurLed];
        }
      }
      j := j + 1;
    }
    assert mainLedPositions == Occupied(leds, 0) && spurLedPositions == Occupied(leds, 1);
    mainRow := [];
    var i := HARVARD_LED;
    while i >= 0
      invariant -1 <= i <= HARVARD_LED
      invariant |mainRow| == HARVARD_LED - i
      invariant forall m :: i < m <= HARVARD_LED ==> mainRow[HARVARD_LED - m] == MainCell(mainLedPositions, m)
    {
      var c := if i in mainLedPositions then '%'
               else if i == 0 then 'O'
               else if i == PALATINE_LED then 'P'
               else if i == HARVARD_LED then 'H'
               else '=';
      mainRow := mainRow + [c];
      i := i - 1;
    }
    spurRow := [];
    i := 0;
    while i < SPUR_JUNCTION_POSITION
      invariant 0 <= i <= SPUR_JUNCTION_POSITION
      invariant spurRow == seq(i, _ => ' ')
    {
      spurRow := spurRow + [' '];
      i := i + 1;
    }
    i := MCHENRY_LED;
    while i >= 0
      invariant -1 <= i <= MCHENRY_LED
      invariant |spurRow| == SPUR_JUNCTION_POSITION + MCHENRY_LED - i
      invariant forall m :: 0 <= m < SPUR_JUNCTION_POSITION ==> spurRow[m] == ' '
      invariant forall m :: i < m <= MCHENRY_LED ==>
                  spurRow[SPUR_JUNCTION_POSITION + MCHENRY_LED - m] == SpurCell(spurLedPositions, m)
    {
      var c := if i in spurLedPositions then '%'
               else if i == MCHENRY_LED then 'M'
               else if i == 0 then ' '
               else '=';
      spurRow := spurRow + [c];
      i := i - 1;
    }
    forall p | 0 <= p <= HARVARD_LED
      ensures mainRow[HARVARD_LED - p] == '%' <==> p in Occupied(leds, 0)
      ensures p !in Occupied(leds, 0) ==>
                mainRow[HARVARD_LED - p] ==
                  if p == 0 then 'O' else if p == PALATINE_LED then 'P' else if p == HARVARD_LED then 'H' else '='
    {
      assert mainRow[HARVARD_LED - p] == MainCell(mainLedPositions, p);
    }
    forall p | 0 <= p <= MCHENRY_LED
      ensures spurRow[SPUR_JUNCTION_POSITION + MCHENRY_LED - p] == '%' <==> p in Occupied(leds, 1)
      ensures p !in Occupied(leds, 1) ==>
                spurRow[SPUR_JUNCTION_POSITION + MCHENRY_LED - p] ==
                  if p == MCHENRY_LED then 'M' else if p == 0 then ' ' else '='
    {
      assert spurRow[SPUR_JUNCTION_POSITION + MCHENRY_LED - p] == SpurCell(spurLedPositions, p);
    }
  }
}
