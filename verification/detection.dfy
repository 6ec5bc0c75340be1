/**
 * The per-frame detection decision of the ball tracker.
 *
 * Contour finding, area, enclosing-circle fitting and image moments are
 * library computations on images; here each contour arrives as the record
 * of their results, and only the tracker's own decision is modelled:
 * pick the contour of largest area (the first one among ties), derive its
 * centroid, and keep a position only for a plausible radius.
 */
module Detection {
  import opened Wrappers

  /** An integer pixel position: the centroid that the trail buffers. */
  datatype Point = Point(x: int, y: int)

  /** One external contour of the colour mask, as the vision library measured it:
      enclosed area, minimum enclosing circle (centre and radius) and the raw
      moments m00, m10, m01. */
  datatype Contour = Contour(
    area: real,
    circleX: real, circleY: real, radius: real,
    m00: real, m10: real, m01: real)

  /** One row of the position table: enclosing-circle centre and elapsed time. */
  datatype Record = Record(x: real, y: real, time: real)

  /** What one frame contributes: the entry for the trail (None when nothing was
      found) and the row for the position table (None when nothing is recorded). */
  datatype Detection = Detection(center: Option<Point>, record: Option<Record>)

  /** The radius filter is strict at both ends. */
  const MinRadius: real := 10.0
  const MaxRadius: real := 300.0

  /** Index of the contour that `max(cnts, key=contourArea)` returns: the scan
      replaces its candidate only on a strictly larger area, so among equal
      areas the first one wins. */
  function Largest(cnts: seq<Contour>): (k: nat)
    requires |cnts| > 0
    ensures k < |cnts|
    ensures forall j :: 0 <= j < |cnts| ==> cnts[j].area <= cnts[k].area
    ensures forall j :: 0 <= j < k ==> cnts[j].area < cnts[k].area
    decreases |cnts|
  {
    if |cnts| == 1 then 0
    else
      var k := Largest(cnts[..|cnts| - 1]);
      if cnts[|cnts| - 1].area > cnts[k].area then |cnts| - 1 else k
  }

  /** Python's `int(r)` on a float: truncation toward zero. */
  function Trunc(r: real): (n: int)
    ensures 0.0 <= r ==> n as real <= r < n as real + 1.0
    ensures r < 0.0 ==> n as real - 1.0 < r <= n as real
  {
    if r >= 0.0 then r.Floor else -((-r).Floor)
  }

  /** The centroid m10/m00, m01/m00, each truncated toward zero; the division
      raises on a zero-area contour, hence the precondition. */
  function Centroid(c: Contour): Point
    requires c.m00 != 0.0
  {
    Point(Trunc(c.m10 / c.m00), Trunc(c.m01 / c.m00))
  }

  /** The frame can be processed without a division by zero: either nothing was
      found, or the contour that will be chosen has a non-zero m00. */
  predicate Locatable(cnts: seq<Contour>)
  {
    |cnts| == 0 || cnts[Largest(cnts)].m00 != 0.0
  }

  /** The detection decision of one frame. */
  function Detect(cnts: seq<Contour>, now: real): (d: Detection)
    requires Locatable(cnts)
    ensures d.center.None? <==> |cnts| == 0
    ensures |cnts| > 0 ==> d.center == Some(Centroid(cnts[Largest(cnts)]))
    ensures d.record.Some? <==>
              |cnts| > 0 && MinRadius < cnts[Largest(cnts)].radius < MaxRadius
    ensures d.record.Some? ==>
              d.record.value.x == cnts[Largest(cnts)].circleX &&
              d.record.value.y == cnts[Largest(cnts)].circleY &&
              d.record.value.time == now
  {
    if |cnts| == 0 then Detection(None, None)
    else
      var c := cnts[Largest(cnts)];
      var rec := if c.radius < MaxRadius && c.radius > MinRadius
                 then Some(Record(c.circleX, c.circleY, now)) else None;
      Detection(Some(Centroid(c)), rec)
  }

  /** The rows a detection adds to the position table: zero or one. */
  function RowsOf(d: Detection): (rows: seq<Record>)
    ensures |rows| <= 1
    ensures |rows| == 1 <==> d.record.Some?
    ensures d.record.Some? ==> rows == [d.record.value]
  {
    if d.record.Some? then [d.record.value] else []
  }
}
