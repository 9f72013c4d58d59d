/**
 Gesture classification from one frame's hand landmarks (main.js,
 `isPinch`, `isSnap`, `areIndexFingersClose`). Every test is a strict
 comparison of a Euclidean distance with a fixed threshold; the model
 compares squared distances with squared thresholds, and the lemmas here
 show that this decides exactly the source's question.
 */
module Gestures {
  import opened Geometry

  /** Number of landmarks the hand tracker reports per hand. */
  const LANDMARKS_PER_HAND: nat := 21
  const THUMB_TIP: nat := 4
  const INDEX_TIP: nat := 8
  const MIDDLE_TIP: nat := 12

  /** One detected hand: its 21 normalised landmarks, in tracker order. */
  type Hand = h: seq<Vec3> | |h| == LANDMARKS_PER_HAND
    witness seq(21, _ => Vec3(0.0, 0.0, 0.0))

  const PINCH_DISTANCE: real := 0.06
  const SNAP_DISTANCE: real := 0.03
  const INDEX_CLOSE_DISTANCE: real := 0.12

  /** Thumb tip and index tip closer than 0.06 in 3D. */
  predicate IsPinch(h: Hand)
  {
    SqDist3(h[THUMB_TIP], h[INDEX_TIP]) < PINCH_DISTANCE * PINCH_DISTANCE
  }

  /** Thumb tip and middle tip closer than 0.03 in 3D. */
  predicate IsSnap(h: Hand)
  {
    SqDist3(h[THUMB_TIP], h[MIDDLE_TIP]) < SNAP_DISTANCE * SNAP_DISTANCE
  }

  /** The two index tips closer than 0.12 in the image plane (depth ignored). */
  predicate IndexFingersClose(l: Hand, r: Hand)
  {
    SqDist2(l[INDEX_TIP], r[INDEX_TIP]) < INDEX_CLOSE_DISTANCE * INDEX_CLOSE_DISTANCE
  }

  /** A hand pinches exactly when its thumb-index distance is below 0.06;
      a distance of exactly 0.06 is not a pinch. */
  lemma PinchThreshold(h: Hand, d: real)
    requires IsRoot(d, SqDist3(h[THUMB_TIP], h[INDEX_TIP]))
    ensures IsPinch(h) <==> d < PINCH_DISTANCE
  {
    SquareLess(d, PINCH_DISTANCE);
  }

  /** A hand snaps exactly when its thumb-middle distance is below 0.03. */
  lemma SnapThreshold(h: Hand, d: real)
    requires IsRoot(d, SqDist3(h[THUMB_TIP], h[MIDDLE_TIP]))
    ensures IsSnap(h) <==> d < SNAP_DISTANCE
  {
    SquareLess(d, SNAP_DISTANCE);
  }

  /** The index tips are close exactly when their planar distance is below 0.12. */
  lemma IndexCloseThreshold(l: Hand, r: Hand, d: real)
    requires IsRoot(d, SqDist2(l[INDEX_TIP], r[INDEX_TIP]))
    ensures IndexFingersClose(l, r) <==> d < INDEX_CLOSE_DISTANCE
  {
    SquareLess(d, INDEX_CLOSE_DISTANCE);
  }

  /** Moving either index tip along the depth axis never changes the
      proximity verdict. */
  lemma IndexCloseIgnoresDepth(l: Hand, r: Hand, zl: real, zr: real)
    ensures IndexFingersClose(l, r)
        <==> IndexFingersClose(l[INDEX_TIP := l[INDEX_TIP].(z := zl)],
                               r[INDEX_TIP := r[INDEX_TIP].(z := zr)])
  {
  }
}
