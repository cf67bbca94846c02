# TransNetV2 shot detection core, in Dafny

This project models the integer core of `TransNetV2.predict` in
`scripts/detect_shots.py`, the shot-boundary detector of the repository. It covers two parts:

1. **Windowed inference arithmetic** (module `Windowing`, `windowing.dfy`). The decoded frames
   are edge-padded: 25 copies of the first frame go in front, and 25 copies of the last frame go
   behind, plus enough copies to reach a multiple of 100 frames. The padded stream is cut into
   100-frame windows at stride 50. The network scores each window, and the centre 50 scores
   `[25:75)` of each window are kept. The kept scores are concatenated and cut to the number
   of frames. The network is a parameter `infer: seq<F> -> Scores`: any total function from a
   window of frames to 100 scores. The frame type `F` is left abstract.
2. **Boundary-to-shot segmentation** (module `Segmentation`, `segmentation.dfy`). The boundaries
   are the frames whose score is strictly above the threshold, in ascending order. A cursor
   starting at frame 0 walks them. Each boundary past the cursor closes the shot
   `[cursor, boundary]`, and the cursor moves to `boundary + 1`. Frames left after the last
   boundary form a trailing shot `[cursor, num_frames - 1]`. A shot is the integer part of the
   `make_shot` record: its start and end frame.

Module `Detector` (`detector.dfy`) puts the two parts together as `predict`. The window loop
and the shot loop are methods with loop invariants, because the source builds its lists step
by step. Each method is proved against a specification function (`CentreSeq`, `Segment`), and
the properties are lemmas about those functions.

The main results:
- Every window lies inside the padded stream.
- The concatenated centre scores cover the whole video.
- The score at position `k` comes from the window slot that holds frame `k`. This works
  because the front padding (25) equals the centre offset (25).
- The shots are in order, disjoint and inside the video.
- A frame lies in a shot exactly when it is not a boundary, or when it is a boundary that
  follows a non-boundary frame.

## Model

| member | source | states |
|---|---|---|
| `Windowing.PaddedLenRoundsUp` | scripts/detect_shots.py:140-148 | the padded length is 50 plus the frame count rounded up to a multiple of 100 (divisible by 100, at least the count, less than the count plus 100) |
| `Windowing.WindowCount` | scripts/detect_shots.py:141-149 | the window count is never negative; it is 0 exactly when there are no frames; the windows' centres together span the padded length minus 50, which is at least the frame count |
| `Windowing.WindowInBounds` | scripts/detect_shots.py:149-157 | every window `w < total_windows` ends inside the padded stream (`w*50 + 100 <= padded_len`), and the last one ends exactly at its end |
| `Windowing.EdgePad` | scripts/detect_shots.py:140-146 | edge padding has the padded length; frame `k` sits at padded index `25 + k`; the positions before it hold the first frame and the positions after the video hold the last frame |
| `Windowing.CentreScores` | scripts/detect_shots.py:155-157 | the centre slice `[25:75)` of one window's 100 scores has 50 entries |
| `Windowing.CentreSeq` | scripts/detect_shots.py:150-194 | the list of kept centre slices has one entry per window, in window order |
| `Windowing.RunWindows` | scripts/detect_shots.py:154-194 | the inference loop appends one centre slice per index of `range(total_windows)` (none for a negative count), slice `w` coming from window `w` |
| `Windowing.ConcatenateCentres` | scripts/detect_shots.py:200 | concatenating 50-score slices gives 50 times as many scores, and position `k` holds score `k % 50` of slice `k / 50` |
| `Windowing.Predictions` | scripts/detect_shots.py:136-200 | after the cut to `num_frames` there is exactly one score per frame, so the cut never runs short |
| `Windowing.ScoreAlignment` | scripts/detect_shots.py:140-157 | the score at position `k` is centre slot `25 + k % 50` of window `k / 50`, that window is a real window of 100 frames, and the frame in that slot is frame `k` |
| `Windowing.PerFrameScores` | scripts/detect_shots.py:136-200 | if the network scored each frame of a window on its own, the per-frame scores would be exactly that score applied to each frame of the video, in order |
| `Segmentation.BoundariesFrom` | scripts/detect_shots.py:216 | the indices from `i` on whose score is above the threshold, strictly increasing, and no others |
| `Segmentation.Boundaries` | scripts/detect_shots.py:216 | the boundaries are exactly the frames `x < num_frames` with `score[x] > threshold`, in strictly increasing order |
| `Segmentation.BuildShots` | scripts/detect_shots.py:239-248 | the shot loop yields exactly the shots of the cursor walk `Segment` (whose properties are the lemmas below); with no boundaries it yields the single shot `[0, n-1]` when `n >= 1` and nothing when `n = 0` |
| `Segmentation.ShotsFromBounds` | scripts/detect_shots.py:242-248 | from boundary index `i` and any cursor at or before the remaining (increasing, in-range) boundaries, the emitted shots start at or after the cursor, have start <= end, and end at or before the last frame |
| `Segmentation.ShotsFromOrdered` | scripts/detect_shots.py:242-248 | from boundary index `i` and any cursor at or before the remaining (increasing, in-range) boundaries, each emitted shot starts after every earlier shot ends |
| `Segmentation.ShotsFromShapedBy` | scripts/detect_shots.py:242-248 | from any boundary index and cursor, every emitted shot either has start < end and ends at a boundary, or is the last shot and ends at the last frame |
| `Segmentation.ShotsFromCoverage` | scripts/detect_shots.py:242-248 | from boundary index `i`, with the boundaries already passed before the cursor and the rest at or after it, a frame `f` at or after the cursor is covered exactly when `f` is not a boundary, or `f` is past the cursor and `f - 1` is not a boundary |
| `Segmentation.SegmentWellFormed` | scripts/detect_shots.py:239-248 | every shot satisfies `0 <= start <= end <= n-1`; each shot starts after the previous one ends; loop-emitted shots have start < end and end at a boundary, so only the trailing shot can be a single frame |
| `Segmentation.SegmentCoverage` | scripts/detect_shots.py:239-248 | a frame lies in some shot exactly when it is not a boundary, or it is a boundary after frame 0 whose predecessor is not one; no frame lies in two shots, so every non-boundary frame lies in exactly one shot |
| `Detector.EmptyGuardUnreachable` | scripts/detect_shots.py:142-149 | as written, predict fails exactly on a video with no frames; for every other video there is at least one window, so the empty-list guard at lines 202-209 never fires |
| `Detector.Predict` | scripts/detect_shots.py:125-257 | a video with no frames yields no shots; any other video yields the same shots as the code as written; the shots are well formed; every shot but the trailing one ends at an above-threshold frame; a frame is in a shot exactly when its score is not above the threshold, or the previous frame's score is not |

## Findings

| source | as written | input that shows it | evidently intended | confidence | as-written member | corrected member |
|---|---|---|---|---|---|---|
| scripts/detect_shots.py:142-209 | with zero frames, `np.pad(..., mode="edge")` raises, because an empty axis cannot be edge-padded; even past it, `np.concatenate` of the empty `all_predictions` at line 200 raises; so the "No shots detected" record at lines 202-209 is never returned | a video that decodes to 0 frames | return the record with an empty shot list | not executed; medium (relies on numpy raising for edge-padding an empty axis and for concatenating an empty list) | `Detector.EmptyGuardUnreachable` | `Detector.Predict` |

`Detector.PredictAsWritten` models the code as written: it returns an error for an empty video.
`Detector.Predict` checks for an empty video before padding and returns no shots. For any
non-empty video it agrees with `PredictAsWritten`.

## Left out

- Model loading, weight download, TensorFlow inference and the sigmoid (scripts/detect_shots.py:35-62, 159-190) are foreign library and network calls. The network is the parameter `infer`, whose output is 100 scores per window. The handling of the output's different array shapes (lines 186-190) is folded into that.
- ffprobe/ffmpeg calls, frame decoding, `np.frombuffer`/`reshape` and the float32 cast (lines 68-123, 134) are I/O and library internals. The frames are an abstract sequence.
- The reported `video`, `fps` and `total_frames` fields are passed through unchanged and are not modelled.
- The float fields of `make_shot` (`start_time`, `end_time`, `duration`, `rounded_duration`) and `round_nearest` (lines 219-237) are floating-point arithmetic. Only the integer frame fields are modelled.
- Scores and the threshold are modelled as reals. Float32 rounding and NaN scores are not modelled.
- Logging, progress reporting and debug output (lines 64-66, 162-197, 203, 214, 217, 250) have no behaviour to verify.
- CLI parsing, the file-existence check and JSON output in `main` (lines 260-278) are I/O.
- Line 211 recomputes the same trimmed concatenation as line 200. The model computes it once.
- The repository's chunked audio transcription (silence-based split planning, parallel dispatch, word merging) is not part of this model. No source for it is among the files modelled.
