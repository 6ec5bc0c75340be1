# Ball tracker: a Dafny model of the per-frame bookkeeping

`OpenCV_BallTracker.py` follows one coloured ball through a camera or video
feed. Each pass of its frame loop finds the contours of the colour mask. It
picks the largest contour and takes that contour's centroid and enclosing
circle. It pushes the centroid onto a bounded trail of recent positions. It
appends a position row to a table when the radius is plausible, draws the
trail, and stops on end of video or on the `q` key. After the loop, it shifts
every recorded position by fixed calibration offsets.

The image work (capture, blur, colour threshold, contour finding, moments,
drawing) is done by the vision library. The model takes its results as
inputs. What remains is the tracker's own logic:

- `Detection` (detection.dfy): a contour is a record of its area, its
  enclosing circle and its raw moments. The module picks the largest contour
  the way `max(cnts, key=contourArea)` does, so the first of equal areas wins.
  It computes the centroid with Python's truncating `int()`. It makes the
  per-frame decision: the trail gets the centroid when a contour is found and
  None otherwise, and a row is added only when 10 < radius < 300.
- `Trail` (trail.dfy): the bounded deque. `PushFront` is `appendleft` on a
  deque with `maxlen`. `Window` is the trail after a whole history of pushes,
  and a lemma proves it is the `cap` most recent entries, newest first. The
  segment rule is given as a specification (`Segments`), with the index loop
  `DrawableSegments` proved against it.
- `Calibration` (calibration.dfy): the post-run shift of the x and y columns,
  x − X0 with X0 = −3 and y − Y0 with Y0 = 20. The time column is unchanged.
- `Tracker` (tracker.dfy): the class `BallTracker` holds the trail, the table
  and the RUNNING/FINISHED phase. `Frame` is one pass of the `while True`
  loop. `Run` is the loop over a finite sequence of frames. Ghost fields keep
  the full push history and the uncorrected table. The object invariant says
  the trail is the window of that history, and that the table is the history
  of rows, corrected once the phase is FINISHED. `Pushed` and `Logged` fold
  the per-frame effects `FramePushes` and `FrameRows` over the first n frames,
  and `Run` is proved to leave exactly those folds in the ghost fields.

Two facts about the code shape what the model promises. A deque built with
`maxlen=3` keeps three entries: pushing A, B, None, C, D leaves D, C, None,
which `Trail.CapacityThreeExample` proves. The time column comes from the wall
clock (line 71), which need not be monotonic, so the model promises that rows
are appended in frame order, not that their times increase.

## Model

| member | source | states |
|---|---|---|
| `Detection.Largest` | OpenCV_BallTracker.py:105 | The chosen contour's area is at least every contour's area, and every earlier contour's area is strictly smaller, so among ties the first in list order is chosen. |
| `Detection.Trunc` | OpenCV_BallTracker.py:108 | `int()` of a float truncates toward zero: the result is within 1 of the input and not beyond it on the side away from zero. |
| `Detection.Centroid` | OpenCV_BallTracker.py:107-108 | The centre is (m10/m00, m01/m00), each truncated toward zero by `Trunc`; a zero m00 is excluded, as the division there raises. |
| `Detection.Locatable` | OpenCV_BallTracker.py:102-108 | A frame's contours can be processed without dividing by zero: there are none, or the contour `Largest` picks has a non-zero m00. |
| `Detection.Detect` | OpenCV_BallTracker.py:99-118 | The trail entry is None exactly when there are no contours, and otherwise is the centroid of the largest contour. A row is produced exactly when contours exist and 10 < radius < 300, both strict. The row is the enclosing-circle centre and this frame's elapsed time. |
| `Detection.RowsOf` | OpenCV_BallTracker.py:118 | A frame adds at most one row to the table, and adds one exactly when the detection recorded a position. That row is the detection's record itself. |
| `Trail.PushFront` | OpenCV_BallTracker.py:121 | After `appendleft` on a deque of capacity `cap`, the length is min(old length + 1, cap), the new entry is at index 0, and the rest is the old contents minus its last entry when it was full. A capacity-0 deque stays empty. |
| `Trail.Window` | OpenCV_BallTracker.py:38 | The trail built by pushing a whole history never holds more than the capacity. |
| `Trail.WindowIsMostRecentFirst` | OpenCV_BallTracker.py:121 | After any history of pushes, the trail has min(pushes, capacity) entries, and entry i is the i-th most recent push. |
| `Trail.WindowStep` | OpenCV_BallTracker.py:121 | One more frame's push onto the window of a history gives the window of the extended history. |
| `Trail.CapacityThreeExample` | OpenCV_BallTracker.py:38 | With capacity 3, pushing A, B, None, C, D leaves D, C, None; A and B are evicted. |
| `Trail.SegmentsUpTo` | OpenCV_BallTracker.py:131-135 | Positions 1..n−1 yield fewer than n segments, each at a position in 1..n−1. |
| `Trail.SegmentsUpToExact` | OpenCV_BallTracker.py:131-135 | Among positions 1..n−1, a segment is produced exactly when both of its endpoint entries are non-None and equal its endpoints. |
| `Trail.SegmentsExact` | OpenCV_BallTracker.py:131-135 | A segment (i, a, b) is drawn if and only if 1 ≤ i < len(trail), trail[i−1] = a and trail[i] = b, both present. A trail of length ≤ 1 draws nothing. |
| `Trail.Segments` | OpenCV_BallTracker.py:131-139 | The segments drawn for a whole trail: `SegmentsUpTo` over positions 1 .. len(trail) − 1. |
| `Trail.SegmentsOrdered` | OpenCV_BallTracker.py:131 | Segments come out in strictly increasing position order. |
| `Trail.DrawableSegments` | OpenCV_BallTracker.py:131-139 | The index loop over the deque produces exactly the segments that the segment rule selects, in order. |
| `Calibration.Corrected` | OpenCV_BallTracker.py:160-166 | One row moved to (x − X0, y − Y0) with X0 = −3 and Y0 = 20, its time unchanged. |
| `Calibration.Calibrate` | OpenCV_BallTracker.py:164-166 | The corrected table has as many rows as the recorded one. |
| `Calibration.CalibrateAt` | OpenCV_BallTracker.py:160-166 | Each corrected row is the recorded row moved to (x + 3, y − 20), with its time unchanged. |
| `Calibration.CalibrateAppend` | OpenCV_BallTracker.py:165-166 | Rows are corrected independently and in order: correcting a concatenation concatenates the corrections. |
| `Calibration.YOffsetExample` | OpenCV_BallTracker.py:161-166 | Recorded y values 0 and 20 become −20 and 0. |
| `Tracker.SelectSource` | OpenCV_BallTracker.py:42-45 | The source is the video file exactly when a non-empty path was given, and is the camera otherwise. |
| `Tracker.BufferSize` | OpenCV_BallTracker.py:28-29 | The trail capacity defaults to 64. |
| `Tracker.KeyCode` | OpenCV_BallTracker.py:143 | `key & 0xFF` is a byte, congruent to the raw key modulo 256. It is the key itself for byte values, and 255 for the "no key" result −1, which therefore never quits. |
| `Tracker.EndOfStream` | OpenCV_BallTracker.py:73-75 | A failed grab ends the stream only when a video path was given; a camera source is never exhausted. |
| `Tracker.QuitRequested` | OpenCV_BallTracker.py:143-147 | The loop is asked to quit when the low byte of the key poll is the code of 'q'. |
| `Tracker.Stops` | OpenCV_BallTracker.py:73-147 | A frame ends the loop by end of stream (before processing) or by 'q' (after drawing). |
| `Tracker.FirstStop` | OpenCV_BallTracker.py:74-147 | Gives the position of the first frame that ends the loop: no earlier frame stops, and the frame there does, by a failed grab on a file source or by 'q'. |
| `Tracker.FirstStopFrom` | OpenCV_BallTracker.py:74-147 | The same search started at position i: no frame in i .. k − 1 stops, and frame k does unless k is the number of frames. |
| `Tracker.FramePushes` | OpenCV_BallTracker.py:73-121 | One loop iteration pushes nothing at end of stream and otherwise exactly the frame's detection entry. |
| `Tracker.FrameRows` | OpenCV_BallTracker.py:73-118 | One loop iteration records nothing at end of stream and otherwise the rows of its detection. |
| `Tracker.Pushed` | OpenCV_BallTracker.py:65-121 | A history followed by every entry pushed while the first n frames are processed, in push order. |
| `Tracker.Logged` | OpenCV_BallTracker.py:65-118 | A table followed by every row recorded while the first n frames are processed, in frame order. |
| `Tracker.PushedDetections` | OpenCV_BallTracker.py:99-121 | While no frame ends the stream, the first n frames push exactly n entries after the existing history, and the entry at position (length of the old history + i) is frame i's detection. |
| `Tracker.LoggedExtends` | OpenCV_BallTracker.py:118 | The table only grows: the recorded rows keep the existing table as a prefix and add at most one row per frame. |
| `Tracker.BallTracker.constructor` | OpenCV_BallTracker.py:38-55 | Start-up selects the source and sets the capacity. It creates an empty trail and an empty table, in the RUNNING phase. |
| `Tracker.BallTracker.Frame` | OpenCV_BallTracker.py:65-147 | On a failed grab from a file, FINISHED with nothing pushed or recorded. Otherwise exactly one entry is pushed at the front of the trail and at most one row is appended, per `Detect`. The ghost history grows by exactly `FramePushes` and the uncorrected table by exactly `FrameRows`. The segments of the new trail are returned. 'q' ends the loop after all of that. The trail never exceeds the capacity. On leaving the loop the table is corrected. |
| `Tracker.BallTracker.Run` | OpenCV_BallTracker.py:65-147 | The loop stops exactly at the first stopping frame, having consumed it, and stays RUNNING only when no given frame stops. The history afterwards is the old history followed by `Pushed` over the consumed frames, and the uncorrected table is the old table followed by `Logged` over them; with `PushedDetections` and `LoggedExtends`, every consumed frame pushes its detection except a final end-of-stream frame, and the table only grows. |

## Left out

- Frame capture, the two-second warm-up, resize, blur, colour conversion, thresholding, erosion and dilation (lines 43-48, 68, 78-85): these are vision-library calls on images. Their effect reaches the model only through the contours a frame supplies.
- Contour finding, contour area, minimum enclosing circle and moments (lines 97, 105-108): library geometry. Each contour arrives as a record of their results. The model does not relate `area` to `m00`.
- Division by a zero m00 at line 108 raises in the source. `Detect`, `Frame` and `Run` require instead that the chosen contour's m00 is non-zero. `Run` requires this of every frame up to and including the first stopping frame that is not end of stream; frames after that are never read.
- A failed grab from the camera goes on to resize a missing frame, which raises inside the imaging library. The model lets such a frame through with whatever contours it is given, as the guard at line 74 does.
- Drawing the circle, the centroid dot and the trail lines, and showing the window (lines 114-115, 139, 142): the model returns the segments that would be drawn.
- Line thickness (line 138): floating-point square root, cosmetic only.
- The theta column (lines 169-170): floating-point arctangent.
- The wall clock (lines 55, 71): each frame's elapsed time is an input, with no assumption that it grows.
- Argument parsing beyond the buffer default and the video path; a negative buffer size, for which the deque constructor raises (the capacity is a natural number here); plotting, CSV and SVG export, camera release and window teardown (lines 22-31, 172-184): I/O and library wrappers.
- Tracker.BallTracker.Run: the source's loop runs until a stop, however many frames that takes. The model runs over a given finite sequence of frames and may end still RUNNING when they are used up.
- Frame labels of the table: the row index `data_df.size/3` is always the current row count, so each assignment appends. The model keeps the table as a sequence of rows.
- Floating-point rounding: positions, times and offsets are exact reals.
