/** Concrete inputs on which the two detectors part ways, or on which a
    decoded box has its height taken from the width or its corners reversed. */
module Quirks {
  import opened Wrappers
  import opened Boxes
  import opened Decode
  import opened Nms
  import opened Detectors

  /** One position, one class: centre (0.5, 0.5), width 0.2, height 0.4, score 0.9. */
  const OnePosition: Geometry := Geometry(640, 640, 5, 1)
  const TallBox: seq<real> := [0.5, 0.5, 0.2, 0.4, 0.9]

  /** OfflineDetector2.kt reads the height from the width channel: the box
      it reports for `TallBox` is 0.2 high, not 0.4, and its vertical
      corners are 0.4 and 0.6 instead of 0.3 and 0.7. */
  lemma OfflineHeightFromWidth()
    ensures OfflineDetect(true, OnePosition, TallBox) ==
            [BoundingBox(0.4, 0.4, 0.6, 0.6, 0.5, 0.5, 0.2, 0.2, 0.9, 0, "elbow positive")]
  {
    assert BestClass(TallBox, OnePosition, 0) == (0.9, 0);
    var b := BoundingBox(0.4, 0.4, 0.6, 0.6, 0.5, 0.5, 0.2, 0.2, 0.9, 0, "elbow positive");
    assert At(TallBox, OnePosition, 0, 0) == 0.5 && At(TallBox, OnePosition, 1, 0) == 0.5;
    assert At(TallBox, OnePosition, OfflineConfig.heightChannel, 0) == 0.2;
    assert BoxAt(TallBox, OnePosition, OfflineConfig, 0, 0.9, 0) == b;
    assert DecodeAt(TallBox, OnePosition, OfflineConfig, 0) == Some(b);
    assert DecodeAll(TallBox, OnePosition, OfflineConfig) == [b];
    assert SortDescending([b]) == [b];
    assert Survivors(b, [], OfflineOverlaps()) == [];
    assert GreedySorted([b], OfflineOverlaps()) == [b];
  }

  /** With the height read from channel 3 the same tensor gives the box
      the model described. */
  lemma CorrectedHeight()
    ensures CorrectedOfflineDetect(true, OnePosition, TallBox) ==
            [BoundingBox(0.4, 0.3, 0.6, 0.7, 0.5, 0.5, 0.2, 0.4, 0.9, 0, "elbow positive")]
  {
    assert BestClass(TallBox, OnePosition, 0) == (0.9, 0);
    var b := BoundingBox(0.4, 0.3, 0.6, 0.7, 0.5, 0.5, 0.2, 0.4, 0.9, 0, "elbow positive");
    assert DecodeAt(TallBox, OnePosition, CorrectedOfflineConfig, 0) == Some(b);
    assert DecodeAll(TallBox, OnePosition, CorrectedOfflineConfig) == [b];
  }

  /** Every box of the corrected detector has the height the model output
      at its position, next to the width and centre of that position. */
  lemma CorrectedHeightEverywhere(loaded: bool, g: Geometry, tensor: seq<real>, b: BoundingBox)
    requires Fits(tensor, g) && b in CorrectedOfflineDetect(loaded, g, tensor)
    ensures exists c :: (0 <= c < g.numElements && 4 < g.numChannel &&
      b.cx == At(tensor, g, 0, c) && b.cy == At(tensor, g, 1, c) &&
      b.w == At(tensor, g, 2, c) && b.h == At(tensor, g, 3, c))
  {
    assert b in multiset(DecodeAll(tensor, g, CorrectedOfflineConfig));
    DecodedFromPosition(tensor, g, CorrectedOfflineConfig, b);
  }

  /** The corner checks accept a negative width: both corners of
      `NegativeWidth` lie in [0, 1] but in reverse order (x1 = 0.6 > x2 = 0.4). */
  const NegativeWidth: seq<real> := [0.5, 0.5, -0.2, -0.2, 0.9]

  lemma ReversedCornersAccepted()
    ensures DetectorDetect(true, OnePosition, NegativeWidth) ==
            [BoundingBox(0.6, 0.6, 0.4, 0.4, 0.5, 0.5, -0.2, -0.2, 0.9, 0, "elbow positive")]
  {
    assert BestClass(NegativeWidth, OnePosition, 0) == (0.9, 0);
    var b := BoundingBox(0.6, 0.6, 0.4, 0.4, 0.5, 0.5, -0.2, -0.2, 0.9, 0, "elbow positive");
    assert DecodeAt(NegativeWidth, OnePosition, DetectorConfig, 0) == Some(b);
    assert DecodeAll(NegativeWidth, OnePosition, DetectorConfig) == [b];
  }

  /** Two zero-area boxes at the same point: their IoU is 0/0, NaN. The
      "keep if below" rule drops the second; the "remove if at least" rule
      keeps both. */
  const Dot1: BoundingBox := BoundingBox(0.5, 0.5, 0.5, 0.5, 0.5, 0.5, 0.0, 0.0, 0.9, 0, "elbow positive")
  const Dot2: BoundingBox := BoundingBox(0.5, 0.5, 0.5, 0.5, 0.5, 0.5, 0.0, 0.0, 0.8, 1, "fingers positive")

  lemma DotsOverlapIsNaN()
    ensures IoU(Dot1, Dot2) == NotANumber
  {
    assert Consistent(Dot1) && Dot1.w == 0.0;
    assert Consistent(Dot2) && Dot2.w == 0.0;
    FlatPairIsNaN(Dot1, Dot2);
  }

  lemma NaNSplitsTheRules()
    ensures Greedy([Dot1, Dot2], Overlaps(KeepBelow, 0.15)) == [Dot1]
    ensures GreedySorted([Dot1, Dot2], Overlaps(RemoveAtLeast, 0.5)) == [Dot1, Dot2]
  {
    DotsOverlapIsNaN();
    var pair := [Dot1, Dot2];
    assert FirstMax(pair) == 0;
    assert Without(pair, 0) == [Dot2];
    assert Survivors(Dot1, [Dot2], Overlaps(KeepBelow, 0.15)) == [];
    assert Survivors(Dot1, [Dot2], Overlaps(RemoveAtLeast, 0.5)) == [Dot2];
  }
}
