/**
 * The trail: a bounded double-ended queue of recent centroids, most recent
 * first, and the line segments drawn between neighbouring entries.
 */
module Trail {
  import opened Wrappers
  import opened Detection

  function Min(a: int, b: int): int { if a < b then a else b }

  function Max(a: int, b: int): int { if a < b then b else a }

  /** `appendleft` on a deque built with `maxlen=cap`: the new entry goes to the
      front and, when the deque is already full, the entry at the back is
      dropped. A deque of capacity 0 stays empty. */
  function PushFront<T>(s: seq<T>, x: T, cap: nat): (r: seq<T>)
    requires |s| <= cap
    ensures |r| == Min(|s| + 1, cap)
    ensures 0 < cap ==> r[0] == x && r[1..] == s[..|r| - 1]
  {
    if |s| < cap then [x] + s
    else if cap == 0 then []
    else [x] + s[..cap - 1]
  }

  /** The trail after every entry of `history` (oldest first) has been pushed,
      one per frame, into an initially empty deque of capacity `cap`. */
  function Window<T>(history: seq<T>, cap: nat): (r: seq<T>)
    ensures |r| <= cap
    decreases |history|
  {
    if history == [] then []
    else PushFront(Window(history[..|history| - 1], cap), history[|history| - 1], cap)
  }

  /** The trail holds exactly the `cap` most recent entries of the history,
      newest first. */
  lemma {:induction false} WindowIsMostRecentFirst<T>(history: seq<T>, cap: nat)
    ensures |Window(history, cap)| == Min(|history|, cap)
    ensures forall i :: 0 <= i < |Window(history, cap)| ==>
              Window(history, cap)[i] == history[|history| - 1 - i]
    decreases |history|
  {
    if history != [] {
      var prefix := history[..|history| - 1];
      WindowIsMostRecentFirst(prefix, cap);
      var w := Window(history, cap);
      forall i | 0 <= i < |w|
        ensures w[i] == history[|history| - 1 - i]
      {
        if i > 0 {
          assert w[1..] == Window(prefix, cap)[..|w| - 1];
          assert w[i] == w[1..][i - 1];
          assert w[i] == Window(prefix, cap)[i - 1];
          assert prefix[|prefix| - 1 - (i - 1)] == history[|history| - 1 - i];
        }
      }
    }
  }

  /** One more frame extends the history and pushes onto the trail. */
  lemma WindowStep<T>(history: seq<T>, x: T, cap: nat)
    ensures Window(history + [x], cap) == PushFront(Window(history, cap), x, cap)
  {
  }

  /** With capacity 3, pushing A, B, None, C, D leaves D, C, None: the two
      oldest entries are evicted. */
  lemma CapacityThreeExample(a: Point, b: Point, c: Point, d: Point)
    ensures Window([Some(a), Some(b), None, Some(c), Some(d)], 3) == [Some(d), Some(c), None]
  {
    var h := [Some(a), Some(b), None, Some(c), Some(d)];
    WindowIsMostRecentFirst(h, 3);
  }

  /** A line of the trail: drawn at loop position `index` from the entry at
      `index - 1` to the entry at `index`. */
  datatype Segment = Segment(index: nat, from: Point, to: Point)

  /** The segments drawn for loop positions 1 .. n-1 of trail `t`, in drawing
      order; a position is skipped when either end is the "no detection" marker. */
  function SegmentsUpTo(t: seq<Option<Point>>, n: nat): (r: seq<Segment>)
    requires n <= |t|
    ensures |r| < Max(n, 1)
    ensures forall s :: s in r ==> 1 <= s.index < n
    decreases n
  {
    if n <= 1 then []
    else
      SegmentsUpTo(t, n - 1) +
      (if t[n - 2].Some? && t[n - 1].Some?
       then [Segment(n - 1, t[n - 2].value, t[n - 1].value)] else [])
  }

  /** All segments drawn for trail `t`. */
  function Segments(t: seq<Option<Point>>): seq<Segment>
  {
    SegmentsUpTo(t, |t|)
  }

  lemma {:induction false} SegmentsUpToExact(t: seq<Option<Point>>, n: nat, s: Segment)
    requires n <= |t|
    ensures s in SegmentsUpTo(t, n) <==>
              1 <= s.index < n && t[s.index - 1] == Some(s.from) && t[s.index] == Some(s.to)
    decreases n
  {
    if n > 1 {
      SegmentsUpToExact(t, n - 1, s);
    }
  }

  /** A segment is drawn exactly for the positions i with 1 <= i < |t| whose
      two ends are both detections; a trail of length at most 1 draws nothing. */
  lemma SegmentsExact(t: seq<Option<Point>>, s: Segment)
    ensures s in Segments(t) <==>
              1 <= s.index < |t| && t[s.index - 1] == Some(s.from) && t[s.index] == Some(s.to)
    ensures |t| <= 1 ==> Segments(t) == []
  {
    SegmentsUpToExact(t, |t|, s);
  }

  /** Segments come out in increasing position order, each position at most once. */
  lemma {:induction false} SegmentsOrdered(t: seq<Option<Point>>, n: nat)
    requires n <= |t|
    ensures forall i, j :: 0 <= i < j < |SegmentsUpTo(t, n)| ==>
              SegmentsUpTo(t, n)[i].index < SegmentsUpTo(t, n)[j].index
    decreases n
  {
    if n > 1 {
      SegmentsOrdered(t, n - 1);
      var r := SegmentsUpTo(t, n);
      var prev := SegmentsUpTo(t, n - 1);
      forall i, j | 0 <= i < j < |r| ensures r[i].index < r[j].index {
        if j >= |prev| {
          assert r[i] in prev;
        }
      }
    }
  }

  /** The drawing loop over the trail: for i from 1 to len-1, a segment between
      entries i-1 and i when both are present. */
  method DrawableSegments(t: seq<Option<Point>>) returns (segs: seq<Segment>)
    ensures segs == Segments(t)
  {
    segs := [];
    var i := 1;
    while i < |t|
      invariant 1 <= i
      invariant i <= |t| || |t| == 0
      invariant segs == SegmentsUpTo(t, if |t| == 0 then 0 else i)
    {
      if t[i - 1].Some? && t[i].Some? {
        segs := segs + [Segment(i, t[i - 1].value, t[i].value)];
      }
      i := i + 1;
    }
  }
}
