/**
 * The tracking loop: one object holding the trail, the position table and the
 * RUNNING/FINISHED phase, updated once per frame.
 *
 * Frame capture, image filtering, contour extraction, drawing and the clock
 * are outside the model: each frame arrives as a `FrameInput` holding what
 * those calls would have produced.
 */
module Tracker {
  import opened Wrappers
  import opened Detection
  import opened Trail
  import opened Calibration

  /** Where frames come from: the default camera, or a video file. */
  datatype Source = Camera | VideoFile(path: string)

  /** RUNNING while the frame loop is active; FINISHED once it has exited and the
      table has been corrected. The transition happens once and is final. */
  datatype Phase = Running | Finished

  /** What the outside world supplies to one iteration of the loop: whether a
      frame was grabbed, the contours found in it, the elapsed time read after
      the grab, and the raw value the key poll returned (-1 for no key). */
  datatype FrameInput = FrameInput(grabbed: bool, contours: seq<Contour>, now: real, rawKey: int)

  /** The trail capacity used when none is given on the command line. */
  const DefaultBuffer: nat := 64

  function BufferSize(buffer: Option<nat>): (n: nat)
    ensures buffer.None? ==> n == 64
    ensures buffer.Some? ==> n == buffer.value
  {
    if buffer.Some? then buffer.value else DefaultBuffer
  }

  const QuitKey: int := 'q' as int

  /** The camera is used unless a non-empty video path was given. */
  function SelectSource(video: Option<string>): (s: Source)
    ensures s.VideoFile? <==> video.Some? && video.value != []
    ensures s.VideoFile? ==> s.path == video.value
  {
    if video.None? || video.value == [] then Camera else VideoFile(video.value)
  }

  /** A failed grab ends the run only for a file source; the camera is never
      considered exhausted. */
  predicate EndOfStream(source: Source, grabbed: bool)
  {
    source.VideoFile? && !grabbed
  }

  /** The low byte of the key poll result, `key & 0xFF` on an unbounded
      two's-complement integer. */
  function KeyCode(raw: int): (b: int)
    ensures 0 <= b < 256
    ensures 0 <= raw < 256 ==> b == raw
    ensures raw == -1 ==> b == 255
    ensures (raw - b) % 256 == 0
  {
    raw % 256
  }

  predicate QuitRequested(raw: int)
  {
    KeyCode(raw) == QuitKey
  }

  /** Whether this iteration leaves the loop: before processing on end of
      stream, after rendering on 'q'. */
  predicate Stops(source: Source, f: FrameInput)
  {
    EndOfStream(source, f.grabbed) || QuitRequested(f.rawKey)
  }

  /** Position of the first input that ends the loop, or the number of inputs
      when none does. */
  function FirstStop(source: Source, frames: seq<FrameInput>): (k: nat)
    ensures k <= |frames|
    ensures forall j :: 0 <= j < k ==> !Stops(source, frames[j])
    ensures k < |frames| ==> Stops(source, frames[k])
  {
    FirstStopFrom(source, frames, 0)
  }

  /** Position of the first input at or after `i` that ends the loop, or the
      number of inputs when none does. */
  function FirstStopFrom(source: Source, frames: seq<FrameInput>, i: nat): (k: nat)
    requires i <= |frames|
    ensures i <= k <= |frames|
    ensures forall j :: i <= j < k ==> !Stops(source, frames[j])
    ensures k < |frames| ==> Stops(source, frames[k])
    decreases |frames| - i
  {
    if i == |frames| || Stops(source, frames[i]) then i
    else FirstStopFrom(source, frames, i + 1)
  }

  /** A frame that is processed has a centroid that can be computed. */
  predicate FrameLocatable(source: Source, f: FrameInput)
  {
    !EndOfStream(source, f.grabbed) ==> Locatable(f.contours)
  }

  /** Each of the first n frames that is processed is locatable. */
  predicate LocatableUpTo(source: Source, frames: seq<FrameInput>, n: nat)
  {
    n <= |frames| && forall i :: 0 <= i < n ==> FrameLocatable(source, frames[i])
  }

  /** What one loop iteration pushes onto the trail: nothing at end of stream,
      otherwise the frame's detection entry. */
  function FramePushes(source: Source, f: FrameInput): seq<Option<Point>>
    requires FrameLocatable(source, f)
  {
    if EndOfStream(source, f.grabbed) then [] else [Detect(f.contours, f.now).center]
  }

  /** What one loop iteration appends to the table, before correction. */
  function FrameRows(source: Source, f: FrameInput): seq<Record>
    requires FrameLocatable(source, f)
  {
    if EndOfStream(source, f.grabbed) then [] else RowsOf(Detect(f.contours, f.now))
  }

  /** `h` followed by every trail entry pushed while processing the first n
      frames, in push order. */
  function Pushed(h: seq<Option<Point>>, source: Source, frames: seq<FrameInput>, n: nat): seq<Option<Point>>
    requires LocatableUpTo(source, frames, n)
  {
    if n == 0 then h else Pushed(h, source, frames, n - 1) + FramePushes(source, frames[n - 1])
  }

  /** `l` followed by every row recorded while processing the first n frames,
      in frame order. */
  function Logged(l: seq<Record>, source: Source, frames: seq<FrameInput>, n: nat): seq<Record>
    requires LocatableUpTo(source, frames, n)
  {
    if n == 0 then l else Logged(l, source, frames, n - 1) + FrameRows(source, frames[n - 1])
  }

  /** While no frame ends the stream, every frame pushes exactly one entry:
      entry |h| + i of the history is frame i's detection. */
  lemma {:induction false} PushedDetections(h: seq<Option<Point>>, source: Source, frames: seq<FrameInput>, n: nat)
    requires LocatableUpTo(source, frames, n)
    requires forall i :: 0 <= i < n ==> !EndOfStream(source, frames[i].grabbed)
    ensures |Pushed(h, source, frames, n)| == |h| + n
    ensures Pushed(h, source, frames, n)[..|h|] == h
    ensures forall i :: 0 <= i < n ==>
              Pushed(h, source, frames, n)[|h| + i] == Detect(frames[i].contours, frames[i].now).center
  {
    if n > 0 {
      PushedDetections(h, source, frames, n - 1);
      var p := Pushed(h, source, frames, n - 1);
      assert FramePushes(source, frames[n - 1]) == [Detect(frames[n - 1].contours, frames[n - 1].now).center];
      assert Pushed(h, source, frames, n) == p + FramePushes(source, frames[n - 1]);
      assert (p + FramePushes(source, frames[n - 1]))[..|h|] == p[..|h|];
    }
  }

  /** The table only grows by appending, by at most one row per frame. */
  lemma {:induction false} LoggedExtends(l: seq<Record>, source: Source, frames: seq<FrameInput>, n: nat)
    requires LocatableUpTo(source, frames, n)
    ensures |l| <= |Logged(l, source, frames, n)| <= |l| + n
    ensures Logged(l, source, frames, n)[..|l|] == l
  {
    if n > 0 {
      LoggedExtends(l, source, frames, n - 1);
      var p := Logged(l, source, frames, n - 1);
      var rows := FrameRows(source, frames[n - 1]);
      assert |rows| <= 1;
      assert Logged(l, source, frames, n) == p + rows;
      assert (p + rows)[..|l|] == p[..|l|];
    }
  }

  class BallTracker {
    const source: Source
    const capacity: nat

    /** The deque of recent centroids, most recent first. */
    var trail: seq<Option<Point>>
    /** The position table; corrected in place when the loop ends. */
    var records: seq<Record>
    var phase: Phase

    /** Every entry ever pushed onto the trail, oldest first. */
    ghost var history: seq<Option<Point>>
    /** The position table as recorded, before any correction. */
    ghost var log: seq<Record>

    ghost predicate Valid()
      reads this
    {
      && trail == Window(history, capacity)
      && records == (if phase == Finished then Calibrate(log) else log)
    }

    /** Start-up: pick the source, create the empty deque and the empty table. */
    constructor (video: Option<string>, buffer: Option<nat>)
      ensures Valid()
      ensures source == SelectSource(video) && capacity == BufferSize(buffer)
      ensures trail == [] && records == [] && phase == Running
      ensures history == [] && log == []
    {
      source := SelectSource(video);
      capacity := BufferSize(buffer);
      trail := [];
      records := [];
      phase := Running;
      history := [];
      log := [];
    }

    /** One iteration of the frame loop. Returns the segments it draws. */
    method Frame(f: FrameInput) returns (segs: seq<Segment>)
      requires Valid() && phase == Running
      requires FrameLocatable(source, f)
      modifies this
      ensures Valid() && |trail| <= capacity
      ensures phase == (if Stops(source, f) then Finished else Running)
      ensures history == old(history) + FramePushes(source, f)
      ensures log == old(log) + FrameRows(source, f)
      ensures EndOfStream(source, f.grabbed) ==> trail == old(trail) && segs == []
      ensures !EndOfStream(source, f.grabbed) ==>
                && trail == PushFront(old(trail), Detect(f.contours, f.now).center, capacity)
                && segs == Segments(trail)
      ensures records == (if phase == Finished then Calibrate(log) else log)
    {
      if EndOfStream(source, f.grabbed) {
        phase := Finished;
        records := Calibrate(records);
        return [];
      }
      var d := Detect(f.contours, f.now);
      assert FramePushes(source, f) == [d.center];
      assert FrameRows(source, f) == RowsOf(d);
      records := records + RowsOf(d);
      log := log + RowsOf(d);
      WindowStep(history, d.center, capacity);
      trail := PushFront(trail, d.center, capacity);
      history := history + [d.center];
      segs := DrawableSegments(trail);
      if QuitRequested(f.rawKey) {
        phase := Finished;
        records := Calibrate(records);
      }
    }

    /** The frame loop over the frames the source delivers, until it stops or
        the given frames run out. Returns how many frames it consumed. */
    method Run(frames: seq<FrameInput>) returns (consumed: nat)
      requires Valid() && phase == Running
      requires forall i :: 0 <= i < |frames| && i <= FirstStop(source, frames) ==>
                 FrameLocatable(source, frames[i])
      modifies this
      ensures Valid()
      ensures phase == Finished <==> FirstStop(source, frames) < |frames|
      ensures consumed == if phase == Finished then FirstStop(source, frames) + 1 else |frames|
      ensures LocatableUpTo(source, frames, consumed)
      ensures history == Pushed(old(history), source, frames, consumed)
      ensures log == Logged(old(log), source, frames, consumed)
    {
      consumed := 0;
      ghost var stop := FirstStop(source, frames);
      while consumed < |frames| && phase == Running
        invariant Valid()
        invariant phase == Running ==> consumed <= stop
        invariant phase == Finished ==> stop < |frames| && consumed == stop + 1
        invariant consumed <= |frames|
        invariant LocatableUpTo(source, frames, consumed)
        invariant history == Pushed(old(history), source, frames, consumed)
        invariant log == Logged(old(log), source, frames, consumed)
      {
        assert LocatableUpTo(source, frames, consumed + 1);
        var _ := Frame(frames[consumed]);
        consumed := consumed + 1;
      }
    }
  }
}
