/**
 * The post-run correction of the position table: a fixed shift of every
 * x and y value by the calibration offsets, with the time column untouched.
 */
module Calibration {
  import opened Detection

  /** Shift correction for the x axis; subtracted, so x grows by 3. */
  const X0: real := -3.0
  /** Shift correction for the y axis; subtracted, so y shrinks by 20. */
  const Y0: real := 20.0

  function Corrected(r: Record): Record
  {
    Record(r.x - X0, r.y - Y0, r.time)
  }

  /** The column-wise corrections `x - X0` and `y - Y0` over the whole table. */
  function Calibrate(rows: seq<Record>): (out: seq<Record>)
    ensures |out| == |rows|
  {
    if rows == [] then [] else [Corrected(rows[0])] + Calibrate(rows[1..])
  }

  /** Row i of the corrected table is row i of the input moved by (+3, -20),
      at the same time. */
  lemma {:induction false} CalibrateAt(rows: seq<Record>, i: nat)
    requires i < |rows|
    ensures Calibrate(rows)[i] == Record(rows[i].x + 3.0, rows[i].y - 20.0, rows[i].time)
    decreases |rows|
  {
    if i > 0 {
      CalibrateAt(rows[1..], i - 1);
    }
  }

  /** Correcting a table in two parts is correcting it whole: rows are
      corrected independently and keep their order. */
  lemma {:induction false} CalibrateAppend(a: seq<Record>, b: seq<Record>)
    ensures Calibrate(a + b) == Calibrate(a) + Calibrate(b)
    decreases |a|
  {
    if a == [] {
      assert a + b == b;
    } else {
      assert (a + b)[0] == a[0];
      assert (a + b)[1..] == a[1..] + b;
      CalibrateAppend(a[1..], b);
    }
  }

  /** Recorded y values 0 and 20 become -20 and 0. */
  lemma YOffsetExample(x0: real, x1: real, t0: real, t1: real)
    ensures Calibrate([Record(x0, 0.0, t0), Record(x1, 20.0, t1)])
              == [Record(x0 + 3.0, -20.0, t0), Record(x1 + 3.0, 0.0, t1)]
  {
  }
}
