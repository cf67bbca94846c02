/** Turning thresholded per-frame scores into shots: the boundary frames are the
    frames whose score is above the threshold, and a cursor walks them in order,
    closing a shot at every boundary that lies past the cursor. */
module Segmentation {

  /** The integer fields of a shot record: its first and last frame, both
      inclusive. The times and durations derived from the frame rate are not
      modelled. */
  datatype Shot = Shot(startFrame: int, endFrame: int)

  predicate Increasing(s: seq<int>) {
    forall i, j :: 0 <= i < j < |s| ==> s[i] < s[j]
  }

  /** Frame f lies in shot s. */
  predicate Contains(s: Shot, f: int) {
    s.startFrame <= f <= s.endFrame
  }

  /** Frame f lies in some shot of shots. */
  predicate Covered(shots: seq<Shot>, f: int) {
    exists i :: 0 <= i < |shots| && Contains(shots[i], f)
  }

  /** Every shot is a range of frames of a video of n frames, and every shot
      starts after the previous one ends (so the shots are in order and
      pairwise disjoint). */
  predicate WellFormed(shots: seq<Shot>, n: int) {
    (forall i :: 0 <= i < |shots| ==> 0 <= shots[i].startFrame <= shots[i].endFrame <= n - 1)
    && Ordered(shots)
  }

  /** Every shot starts after every earlier shot ends. */
  predicate Ordered(shots: seq<Shot>) {
    forall i, j :: 0 <= i < j < |shots| ==> shots[i].endFrame < shots[j].startFrame
  }

  /** Every shot but possibly the last is at least two frames long and ends at a
      boundary; the last one may instead be the trailing shot ending at the
      last frame. */
  predicate ShapedBy(shots: seq<Shot>, boundaries: seq<nat>, n: int) {
    forall i :: 0 <= i < |shots| ==>
      (shots[i].startFrame < shots[i].endFrame && shots[i].endFrame in boundaries)
      || (i == |shots| - 1 && shots[i].endFrame == n - 1)
  }

  /** The indices x with i <= x < |scores| whose score is above the threshold,
      in ascending order. */
  function BoundariesFrom(scores: seq<real>, threshold: real, i: nat): (r: seq<nat>)
    requires i <= |scores|
    ensures Increasing(r)
    ensures forall x: int :: x in r <==> i <= x < |scores| && scores[x] > threshold
    decreases |scores| - i
  {
    if i == |scores| then []
    else
      var rest := BoundariesFrom(scores, threshold, i + 1);
      if scores[i] > threshold then
        PrependIncreasing(i, rest);
        [i] + rest
      else rest
  }

  lemma PrependIncreasing(x: int, s: seq<int>)
    requires Increasing(s) && forall y :: y in s ==> x < y
    ensures Increasing([x] + s)
  {
    forall a, b | 0 <= a < b < |[x] + s|
      ensures ([x] + s)[a] < ([x] + s)[b]
    {
      assert ([x] + s)[b] == s[b - 1] && s[b - 1] in s;
      if a > 0 {
        assert ([x] + s)[a] == s[a - 1];
      }
    }
  }

  /** The shot boundaries: every frame whose score is strictly above the
      threshold, in ascending order. */
  function Boundaries(scores: seq<real>, threshold: real): (r: seq<nat>)
    ensures Increasing(r)
    ensures forall x: int :: x in r <==> 0 <= x < |scores| && scores[x] > threshold
  {
    BoundariesFrom(scores, threshold, 0)
  }

  /** The shots the cursor walk emits once it has passed the first i
      boundaries and its cursor stands at `cursor`, including the trailing
      shot, for a video of n frames. */
  function ShotsFrom(boundaries: seq<nat>, i: nat, cursor: int, n: int): seq<Shot>
    requires i <= |boundaries|
    decreases |boundaries| - i
  {
    if i == |boundaries| then
      if cursor < n then [Shot(cursor, n - 1)] else []
    else
      var b := boundaries[i];
      (if b > cursor then [Shot(cursor, b)] else []) + ShotsFrom(boundaries, i + 1, b + 1, n)
  }

  /** The shots of a video of n frames with the given boundaries. */
  function Segment(boundaries: seq<nat>, n: int): seq<Shot> {
    ShotsFrom(boundaries, 0, 0, n)
  }

  /** The shot-building loop: a cursor starts at frame 0; each boundary past the
      cursor closes the shot [cursor, boundary], and the cursor moves to the
      frame after the boundary; frames left after the last boundary form a
      trailing shot. */
  method BuildShots(boundaries: seq<nat>, numFrames: int) returns (shots: seq<Shot>)
    ensures shots == Segment(boundaries, numFrames)
    ensures boundaries == [] ==> shots == if numFrames >= 1 then [Shot(0, numFrames - 1)] else []
  {
    shots := [];
    var startFrame := 0;
    var i := 0;
    while i < |boundaries|
      invariant 0 <= i <= |boundaries|
      invariant shots + ShotsFrom(boundaries, i, startFrame, numFrames) == Segment(boundaries, numFrames)
    {
      var boundary := boundaries[i];
      ShotsFromStep(shots, boundaries, i, startFrame, numFrames);
      if boundary > startFrame {
        shots := shots + [Shot(startFrame, boundary)];
      }
      startFrame := boundary + 1;
      i := i + 1;
    }
    if startFrame < numFrames {
      shots := shots + [Shot(startFrame, numFrames - 1)];
    } else {
      assert shots + [] == shots;
    }
  }

  /** One step of the cursor walk, after the shots `done`: boundary i closes a
      shot if it lies past the cursor, and the walk continues after it. */
  lemma ShotsFromStep(done: seq<Shot>, boundaries: seq<nat>, i: nat, cursor: int, n: int)
    requires i < |boundaries|
    ensures boundaries[i] > cursor ==>
              done + ShotsFrom(boundaries, i, cursor, n) ==
              (done + [Shot(cursor, boundaries[i])]) + ShotsFrom(boundaries, i + 1, boundaries[i] + 1, n)
    ensures boundaries[i] <= cursor ==>
              done + ShotsFrom(boundaries, i, cursor, n) ==
              done + ShotsFrom(boundaries, i + 1, boundaries[i] + 1, n)
  {
    var rest := ShotsFrom(boundaries, i + 1, boundaries[i] + 1, n);
    if boundaries[i] > cursor {
      assert done + ([Shot(cursor, boundaries[i])] + rest) == (done + [Shot(cursor, boundaries[i])]) + rest;
    } else {
      assert [] + rest == rest;
    }
  }

  /** The boundaries from index i on are increasing, at or past the cursor and
      inside a video of n frames. */
  predicate AheadOf(boundaries: seq<nat>, i: nat, cursor: int, n: int) {
    Increasing(boundaries) && i <= |boundaries|
    && forall k :: i <= k < |boundaries| ==> cursor <= boundaries[k] < n
  }

  lemma CoveredConcat(a: seq<Shot>, b: seq<Shot>, f: int)
    ensures Covered(a + b, f) <==> Covered(a, f) || Covered(b, f)
  {
    if Covered(a + b, f) {
      var i :| 0 <= i < |a + b| && Contains((a + b)[i], f);
      if i >= |a| {
        assert Contains(b[i - |a|], f);
      } else {
        assert Contains(a[i], f);
      }
    }
    if Covered(a, f) {
      var i :| 0 <= i < |a| && Contains(a[i], f);
      assert (a + b)[i] == a[i];
    }
    if Covered(b, f) {
      var j :| 0 <= j < |b| && Contains(b[j], f);
      assert (a + b)[|a| + j] == b[j];
    }
  }

  /** Shots emitted from a cursor over in-range boundaries at or past it lie
      between the cursor and the last frame. */
  lemma {:induction false} ShotsFromBounds(boundaries: seq<nat>, i: nat, cursor: int, n: int)
    requires AheadOf(boundaries, i, cursor, n)
    decreases |boundaries| - i
    ensures forall j :: 0 <= j < |ShotsFrom(boundaries, i, cursor, n)| ==>
              cursor <= ShotsFrom(boundaries, i, cursor, n)[j].startFrame
              <= ShotsFrom(boundaries, i, cursor, n)[j].endFrame <= n - 1
  {
    if i < |boundaries| {
      var b := boundaries[i];
      ShotsFromBounds(boundaries, i + 1, b + 1, n);
      var rest := ShotsFrom(boundaries, i + 1, b + 1, n);
      if b > cursor {
        var r := [Shot(cursor, b)] + rest;
        assert r == ShotsFrom(boundaries, i, cursor, n);
        forall j | 0 <= j < |r|
          ensures cursor <= r[j].startFrame <= r[j].endFrame <= n - 1
        {
          if j > 0 {
            assert r[j] == rest[j - 1];
          }
        }
      } else {
        assert rest == ShotsFrom(boundaries, i, cursor, n);
      }
    }
  }

  lemma OrderedCons(s: Shot, shots: seq<Shot>)
    requires Ordered(shots)
    requires forall j :: 0 <= j < |shots| ==> s.endFrame < shots[j].startFrame
    ensures Ordered([s] + shots)
  {
    var r := [s] + shots;
    forall i, j | 0 <= i < j < |r|
      ensures r[i].endFrame < r[j].startFrame
    {
      assert r[j] == shots[j - 1];
      if i > 0 {
        assert r[i] == shots[i - 1];
      }
    }
  }

  /** Each emitted shot starts after the previous one ends. */
  lemma {:induction false} ShotsFromOrdered(boundaries: seq<nat>, i: nat, cursor: int, n: int)
    requires AheadOf(boundaries, i, cursor, n)
    decreases |boundaries| - i
    ensures Ordered(ShotsFrom(boundaries, i, cursor, n))
  {
    if i < |boundaries| {
      var b := boundaries[i];
      ShotsFromOrdered(boundaries, i + 1, b + 1, n);
      ShotsFromBounds(boundaries, i + 1, b + 1, n);
      var rest := ShotsFrom(boundaries, i + 1, b + 1, n);
      if b > cursor {
        assert ShotsFrom(boundaries, i, cursor, n) == [Shot(cursor, b)] + rest;
        OrderedCons(Shot(cursor, b), rest);
      } else {
        assert ShotsFrom(boundaries, i, cursor, n) == rest;
      }
    }
  }

  lemma ShapedByCons(s: Shot, shots: seq<Shot>, boundaries: seq<nat>, n: int)
    requires s.startFrame < s.endFrame && s.endFrame in boundaries
    requires ShapedBy(shots, boundaries, n)
    ensures ShapedBy([s] + shots, boundaries, n)
  {
    var r := [s] + shots;
    forall j | 0 <= j < |r|
      ensures (r[j].startFrame < r[j].endFrame && r[j].endFrame in boundaries)
              || (j == |r| - 1 && r[j].endFrame == n - 1)
    {
      if j > 0 {
        assert r[j] == shots[j - 1];
      }
    }
  }

  /** Every emitted shot is at least two frames long and ends at a boundary,
      except possibly the last, which may be the trailing shot. */
  lemma {:induction false} ShotsFromShapedBy(boundaries: seq<nat>, i: nat, cursor: int, n: int)
    requires i <= |boundaries|
    decreases |boundaries| - i
    ensures ShapedBy(ShotsFrom(boundaries, i, cursor, n), boundaries, n)
  {
    if i < |boundaries| {
      var b := boundaries[i];
      ShotsFromShapedBy(boundaries, i + 1, b + 1, n);
      var rest := ShotsFrom(boundaries, i + 1, b + 1, n);
      if b > cursor {
        assert b in boundaries;
        assert ShotsFrom(boundaries, i, cursor, n) == [Shot(cursor, b)] + rest;
        ShapedByCons(Shot(cursor, b), rest, boundaries, n);
      } else {
        assert ShotsFrom(boundaries, i, cursor, n) == rest;
      }
    }
  }

  /** Which frames at or past the cursor the emitted shots cover, when every
      boundary already passed lies before the cursor: every non-boundary frame,
      and a boundary frame exactly when it lies past the cursor and the frame
      before it is not a boundary. */
  lemma {:induction false} ShotsFromCoverage(boundaries: seq<nat>, i: nat, cursor: int, n: int, f: int)
    requires AheadOf(boundaries, i, cursor, n)
    requires forall k :: 0 <= k < i ==> boundaries[k] < cursor
    requires cursor <= f < n
    decreases |boundaries| - i
    ensures Covered(ShotsFrom(boundaries, i, cursor, n), f) <==>
            f !in boundaries || (f > cursor && f - 1 !in boundaries)
  {
    var r := ShotsFrom(boundaries, i, cursor, n);
    if i == |boundaries| {
      assert Contains(r[0], f);
    } else {
      var b := boundaries[i];
      var head := if b > cursor then [Shot(cursor, b)] else [];
      var rest := ShotsFrom(boundaries, i + 1, b + 1, n);
      assert r == head + rest;
      CoveredConcat(head, rest, f);
      // Boundaries before index i lie before the cursor, those after it past b.
      assert forall k :: 0 <= k < |boundaries| && k != i ==> boundaries[k] < cursor || boundaries[k] > b;
      if f <= b {
        ShotsFromBounds(boundaries, i + 1, b + 1, n);
        assert !Covered(rest, f);
        if b > cursor {
          assert Contains(head[0], f);
        }
        if f == b {
          assert f in boundaries;
        }
      } else {
        assert !Covered(head, f);
        ShotsFromCoverage(boundaries, i + 1, b + 1, n, f);
        if f == b + 1 {
          assert f - 1 in boundaries;
        }
      }
    }
  }

  /** The shots of a video of n frames with increasing in-range boundaries are
      well formed: inside [0, n-1], in order and disjoint; every shot but the
      trailing one is at least two frames long and ends at a boundary. */
  lemma SegmentWellFormed(boundaries: seq<nat>, n: int)
    requires Increasing(boundaries) && forall b :: b in boundaries ==> b < n
    ensures WellFormed(Segment(boundaries, n), n)
    ensures ShapedBy(Segment(boundaries, n), boundaries, n)
  {
    assert forall k :: 0 <= k < |boundaries| ==> boundaries[k] in boundaries;
    ShotsFromBounds(boundaries, 0, 0, n);
    ShotsFromOrdered(boundaries, 0, 0, n);
    ShotsFromShapedBy(boundaries, 0, 0, n);
  }

  /** Coverage: a frame of the video lies in a shot exactly when it is not a
      boundary, or it is a boundary past frame 0 whose predecessor is not one;
      and no frame lies in two shots. So every non-boundary frame lies in
      exactly one shot. */
  lemma SegmentCoverage(boundaries: seq<nat>, n: int)
    requires Increasing(boundaries) && forall b :: b in boundaries ==> b < n
    ensures forall f: int {:trigger Covered(Segment(boundaries, n), f)} :: 0 <= f < n ==>
              (Covered(Segment(boundaries, n), f) <==> f !in boundaries || (f > 0 && f - 1 !in boundaries))
    ensures forall f: int, i: int, j: int ::
              0 <= i < |Segment(boundaries, n)| && 0 <= j < |Segment(boundaries, n)|
              && Contains(Segment(boundaries, n)[i], f) && Contains(Segment(boundaries, n)[j], f)
              ==> i == j
  {
    assert forall k :: 0 <= k < |boundaries| ==> boundaries[k] in boundaries;
    forall f: int {:trigger Covered(Segment(boundaries, n), f)} | 0 <= f < n
      ensures Covered(Segment(boundaries, n), f) <==> f !in boundaries || (f > 0 && f - 1 !in boundaries)
    {
      ShotsFromCoverage(boundaries, 0, 0, n, f);
    }
    ShotsFromBounds(boundaries, 0, 0, n);
    ShotsFromOrdered(boundaries, 0, 0, n);
  }
}
