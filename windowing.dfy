/** The sliding-window inference of the shot detector, as index arithmetic.
    The video's frames are padded by repeating the first frame 25 times in
    front and the last frame 25 times (plus enough to reach a multiple of 100
    frames) behind; the padded stream is cut into 100-frame windows at stride
    50; of each window's 100 scores the centre 50 are kept, the kept scores
    are concatenated and the concatenation is cut to the number of frames.
    The network itself is a parameter: any total function from a window of
    frames to 100 scores. */
module Windowing {

  const WindowSize: nat := 100
  const StepSize: nat := 50
  const PadStart: nat := 25
  /** Scores CentreStart up to (not including) CentreEnd of each window are kept. */
  const CentreStart: nat := 25
  const CentreEnd: nat := 75

  /** The network's output for one window: one score per frame of the window. */
  type Scores = s: seq<real> | |s| == WindowSize witness seq(WindowSize, _ => 0.0)

  /** Frames repeated after the last one: 25, plus enough to bring the frame
      count up to a multiple of the window size. */
  function PadEnd(n: nat): nat {
    25 + (WindowSize - n % WindowSize) % WindowSize
  }

  function PaddedLen(n: nat): nat {
    PadStart + n + PadEnd(n)
  }

  /** The number of windows. With a positive divisor Dafny's `/` rounds down,
      as Python's `//` does, so for n = 0 this is (50 - 100) / 50 + 1 = 0. */
  function TotalWindows(n: nat): int {
    (PaddedLen(n) - WindowSize) / StepSize + 1
  }

  /** The padded length is 50 plus the frame count rounded up to a multiple of
      the window size. */
  lemma PaddedLenRoundsUp(n: nat)
    ensures (PaddedLen(n) - 50) % WindowSize == 0
    ensures n <= PaddedLen(n) - 50 < n + WindowSize
  {
    var r := n % WindowSize;
    if r == 0 {
      assert PaddedLen(n) - 50 == n;
    } else {
      assert PaddedLen(n) - 50 == n - r + WindowSize;
    }
  }

  /** The windows' centres together span the padded stream minus its first and
      last 25 frames, which is at least the whole video; there are no windows
      exactly when there are no frames. */
  lemma WindowCount(n: nat)
    ensures TotalWindows(n) >= 0
    ensures TotalWindows(n) == 0 <==> n == 0
    ensures TotalWindows(n) * StepSize == PaddedLen(n) - 50
    ensures n <= TotalWindows(n) * StepSize
  {
    PaddedLenRoundsUp(n);
    var m := (PaddedLen(n) - 50) / WindowSize;
    assert PaddedLen(n) - 50 == WindowSize * m;
    assert PaddedLen(n) - WindowSize == StepSize * (2 * m - 1);
    assert TotalWindows(n) == 2 * m;
  }

  /** Every window lies inside the padded stream, and the last one ends
      exactly at its end. */
  lemma WindowInBounds(n: nat, w: int)
    requires 0 <= w < TotalWindows(n)
    ensures w * StepSize + WindowSize <= PaddedLen(n)
    ensures w == TotalWindows(n) - 1 ==> w * StepSize + WindowSize == PaddedLen(n)
  {
    WindowCount(n);
  }

  /** Python's slice `s[lo:hi]` for non-negative bounds: both bounds are
      clamped to the sequence, so it never fails. */
  function Slice<T>(s: seq<T>, lo: nat, hi: nat): seq<T> {
    var h := if hi <= |s| then hi else |s|;
    var l := if lo <= h then lo else h;
    s[l..h]
  }

  /** Padding with mode "edge": the first frame repeated PadStart times in
      front, the last frame repeated PadEnd times behind. */
  function EdgePad<F>(frames: seq<F>): (r: seq<F>)
    requires |frames| >= 1
    ensures |r| == PaddedLen(|frames|)
    ensures forall k :: 0 <= k < |frames| ==> r[PadStart + k] == frames[k]
    ensures forall i :: 0 <= i < PadStart ==> r[i] == frames[0]
    ensures forall i :: PadStart + |frames| <= i < |r| ==> r[i] == frames[|frames| - 1]
  {
    seq(PadStart, _ => frames[0]) + frames + seq(PadEnd(|frames|), _ => frames[|frames| - 1])
  }

  /** Window w of the padded stream: `padded[w*50 : w*50+100]`. */
  function Window<F>(padded: seq<F>, w: nat): seq<F> {
    Slice(padded, w * StepSize, w * StepSize + WindowSize)
  }

  /** The centre scores `pred[25:75]` of window w. */
  function CentreScores<F>(padded: seq<F>, infer: seq<F> -> Scores, w: nat): (r: seq<real>)
    ensures |r| == StepSize
  {
    infer(Window(padded, w))[CentreStart..CentreEnd]
  }

  /** The centre scores of the first `count` windows, in window order. */
  function CentreSeq<F>(padded: seq<F>, infer: seq<F> -> Scores, count: nat): (r: seq<seq<real>>)
    ensures |r| == count
    ensures forall w :: 0 <= w < count ==> r[w] == CentreScores(padded, infer, w)
  {
    if count == 0 then []
    else CentreSeq(padded, infer, count - 1) + [CentreScores(padded, infer, count - 1)]
  }

  /** The inference loop: for each window index in `range(totalWindows)` it
      runs the network on that window and appends the window's centre scores. */
  method RunWindows<F>(padded: seq<F>, totalWindows: int, infer: seq<F> -> Scores)
    returns (allPredictions: seq<seq<real>>)
    ensures |allPredictions| == if totalWindows < 0 then 0 else totalWindows
    ensures forall w :: 0 <= w < |allPredictions| ==> allPredictions[w] == CentreScores(padded, infer, w)
  {
    allPredictions := [];
    var windowIdx := 0;
    while windowIdx < totalWindows
      invariant 0 <= windowIdx <= if totalWindows < 0 then 0 else totalWindows
      invariant |allPredictions| == windowIdx
      invariant forall w :: 0 <= w < windowIdx ==> allPredictions[w] == CentreScores(padded, infer, w)
    {
      var start := windowIdx * StepSize;
      var end := start + WindowSize;
      var batch := Slice(padded, start, end);
      var pred := infer(batch);
      var centrePred := pred[CentreStart..CentreEnd];
      allPredictions := allPredictions + [centrePred];
      windowIdx := windowIdx + 1;
    }
  }

  /** `np.concatenate`: the parts joined in order. */
  function Concatenate(parts: seq<seq<real>>): seq<real> {
    if parts == [] then [] else parts[0] + Concatenate(parts[1..])
  }

  /** Concatenating parts of StepSize scores each gives StepSize scores per
      part. */
  lemma {:induction false} ConcatenateLength(parts: seq<seq<real>>)
    requires forall p :: p in parts ==> |p| == StepSize
    ensures |Concatenate(parts)| == StepSize * |parts|
  {
    if parts != [] {
      assert parts[0] in parts;
      assert forall p :: p in parts[1..] ==> p in parts;
      ConcatenateLength(parts[1..]);
    }
  }

  /** Position k of a concatenation of parts of StepSize scores each holds
      score k % StepSize of part k / StepSize. */
  lemma {:induction false} ConcatenateAt(parts: seq<seq<real>>, k: int)
    requires forall p :: p in parts ==> |p| == StepSize
    requires 0 <= k < StepSize * |parts|
    ensures |Concatenate(parts)| == StepSize * |parts|
    ensures Concatenate(parts)[k] == parts[k / StepSize][k % StepSize]
  {
    ConcatenateLength(parts);
    assert parts[0] in parts;
    if k >= StepSize {
      assert forall p :: p in parts[1..] ==> p in parts;
      ConcatenateAt(parts[1..], k - StepSize);
      assert (k - StepSize) / StepSize == k / StepSize - 1;
      assert (k - StepSize) % StepSize == k % StepSize;
    }
  }

  /** Concatenating parts of StepSize scores each puts score j of part w at
      position w * StepSize + j. */
  lemma ConcatenateCentres(parts: seq<seq<real>>)
    requires forall p :: p in parts ==> |p| == StepSize
    ensures |Concatenate(parts)| == StepSize * |parts|
    ensures forall k :: 0 <= k < StepSize * |parts| ==>
              Concatenate(parts)[k] == parts[k / StepSize][k % StepSize]
  {
    ConcatenateLength(parts);
    forall k | 0 <= k < StepSize * |parts|
      ensures Concatenate(parts)[k] == parts[k / StepSize][k % StepSize]
    {
      ConcatenateAt(parts, k);
    }
  }

  /** The per-frame scores: the centre scores of all windows, concatenated and
      cut to the number of frames (`[:num_frames]`). A video without frames
      has no scores. */
  function Predictions<F>(frames: seq<F>, infer: seq<F> -> Scores): (r: seq<real>)
    ensures |r| == |frames|
  {
    if |frames| == 0 then []
    else
      var n := |frames|;
      WindowCount(n);
      var centres := CentreSeq(EdgePad(frames), infer, TotalWindows(n));
      ConcatenateLength(centres);
      Slice(Concatenate(centres), 0, n)
  }

  /** The frame in centre slot 25 + k % 50 of window k / 50 is frame k of the
      video, and that window is one of the windows and holds 100 frames,
      because the front padding (25) equals the offset of the centre (25). */
  lemma CentreSlotHoldsFrame<F>(frames: seq<F>, k: int)
    requires 0 <= k < |frames|
    ensures k / StepSize < TotalWindows(|frames|)
    ensures |Window(EdgePad(frames), k / StepSize)| == WindowSize
    ensures Window(EdgePad(frames), k / StepSize)[CentreStart + k % StepSize] == frames[k]
  {
    var n := |frames|;
    var padded := EdgePad(frames);
    var w := k / StepSize;
    var lo := w * StepSize;
    WindowCount(n);
    assert w < TotalWindows(n);
    WindowInBounds(n, w);
    assert Window(padded, w) == padded[lo .. lo + WindowSize];
    assert lo + CentreStart + k % StepSize == PadStart + k;
    assert padded[lo .. lo + WindowSize][CentreStart + k % StepSize] == padded[PadStart + k];
  }

  /** Position k of the per-frame scores is centre score k % 50 of window
      k / 50. */
  lemma PredictionAt<F>(frames: seq<F>, infer: seq<F> -> Scores, k: int)
    requires 0 <= k < |frames|
    ensures Predictions(frames, infer)[k] == CentreScores(EdgePad(frames), infer, k / StepSize)[k % StepSize]
  {
    var n := |frames|;
    WindowCount(n);
    var centres := CentreSeq(EdgePad(frames), infer, TotalWindows(n));
    ConcatenateAt(centres, k);
    assert Predictions(frames, infer) == Concatenate(centres)[..n];
  }

  /** Alignment: the score at position k of the per-frame scores is the score
      the network gives to centre slot 25 + k % 50 of window k / 50, the slot
      that holds frame k. */
  lemma ScoreAlignment<F>(frames: seq<F>, infer: seq<F> -> Scores, k: int)
    requires 0 <= k < |frames|
    ensures k / StepSize < TotalWindows(|frames|)
    ensures |Window(EdgePad(frames), k / StepSize)| == WindowSize
    ensures Window(EdgePad(frames), k / StepSize)[CentreStart + k % StepSize] == frames[k]
    ensures Predictions(frames, infer)[k] == infer(Window(EdgePad(frames), k / StepSize))[CentreStart + k % StepSize]
  {
    CentreSlotHoldsFrame(frames, k);
    PredictionAt(frames, infer, k);
  }

  /** If the network scored every frame of a window on its own, by some
      per-frame function, the per-frame scores would be exactly that function
      applied to the video's frames, one score per frame, in order. */
  lemma PerFrameScores<F>(frames: seq<F>, infer: seq<F> -> Scores, score: F -> real)
    requires forall b: seq<F>, i :: |b| == WindowSize && 0 <= i < WindowSize ==> infer(b)[i] == score(b[i])
    ensures Predictions(frames, infer) == seq(|frames|, k requires 0 <= k < |frames| => score(frames[k]))
  {
    var p := Predictions(frames, infer);
    forall k | 0 <= k < |frames|
      ensures p[k] == score(frames[k])
    {
      ScoreAlignment(frames, infer, k);
    }
  }
}
