/** The shot detector's `predict`: from the decoded frames of a video, through
    the windowed per-frame scores and the thresholded boundaries, to the list
    of shots. */
module Detector {
  import opened Windowing
  import opened Segmentation

  /** The part of predict's result this model computes: the shots. The video
      path, frame rate and frame count reported beside them are passed through
      from frame extraction and are not modelled. */
  datatype Detection = Detection(shots: seq<Shot>)

  /** Raised by predict as written for a video without frames: edge padding
      has no frame to repeat. */
  datatype PredictError = PadEmptyAxis

  datatype Result<T> = Ok(value: T) | Err(error: PredictError)

  /** predict as written. Without frames, `np.pad(..., mode="edge")` raises
      before any window is formed, and had it not, `np.concatenate` of the
      empty window list would raise next; either way the "no shots" record
      that follows them is never returned for an empty video. */
  function PredictAsWritten<F>(frames: seq<F>, infer: seq<F> -> Scores, threshold: real): Result<Detection> {
    if |frames| == 0 then Err(PadEmptyAxis)
    else Ok(Detection(Segment(Boundaries(Predictions(frames, infer), threshold), |frames|)))
  }

  /** As written, predict fails exactly on a video without frames, and on every
      other video there is at least one window, so the check for an empty
      window list never fires where it is reached. */
  lemma EmptyGuardUnreachable<F>(frames: seq<F>, infer: seq<F> -> Scores, threshold: real)
    ensures PredictAsWritten(frames, infer, threshold).Err? <==> |frames| == 0
    ensures |frames| >= 1 ==> TotalWindows(|frames|) >= 1
  {
    WindowCount(|frames|);
  }

  /** predict with the empty-video check placed before the padding, so that a
      video without frames yields the empty shot list. The shots are well
      formed (inside the video, in order, disjoint), every shot but the
      trailing one ends at a frame scored above the threshold, and a frame lies
      in a shot exactly when it is not above the threshold or it follows a
      frame that is not. */
  method Predict<F>(frames: seq<F>, infer: seq<F> -> Scores, threshold: real) returns (d: Detection)
    ensures |frames| == 0 ==> d.shots == []
    ensures |frames| >= 1 ==> PredictAsWritten(frames, infer, threshold) == Ok(d)
    ensures WellFormed(d.shots, |frames|)
    ensures ShapedBy(d.shots, Boundaries(Predictions(frames, infer), threshold), |frames|)
    ensures var p := Predictions(frames, infer);
            forall f: int {:trigger Covered(d.shots, f)} :: 0 <= f < |frames| ==>
              (Covered(d.shots, f) <==> !(p[f] > threshold) || (f > 0 && !(p[f - 1] > threshold)))
  {
    var numFrames := |frames|;
    if numFrames == 0 {
      d := Detection([]);
      return;
    }
    var padded := EdgePad(frames);
    var totalWindows := TotalWindows(numFrames);
    WindowCount(numFrames);
    var allPredictions := RunWindows(padded, totalWindows, infer);
    assert allPredictions == CentreSeq(padded, infer, totalWindows);
    var predictions := Slice(Concatenate(allPredictions), 0, numFrames);
    assert predictions == Predictions(frames, infer);
    var shotBoundaries := Boundaries(predictions, threshold);
    var shots := BuildShots(shotBoundaries, numFrames);
    SegmentWellFormed(shotBoundaries, numFrames);
    SegmentCoverage(shotBoundaries, numFrames);
    d := Detection(shots);
  }
}
