/** The two detectors of the application, each an instance of the shared
    decoder and of one suppression loop: `Detector` (priority queue, keep a
    box while its IoU is below 0.15) and `OfflineDetector2` (stable sort,
    remove a box once its IoU reaches 0.5, height read from the width
    channel). Interpreter loading and inference are outside the model: the
    output tensor and the shape values are inputs. */
module Detectors {
  import opened Wrappers
  import opened Boxes
  import opened Decode
  import opened Nms

  /** The label table both detectors carry, in class-index order. */
  const Labels: seq<string> := [
    "elbow positive",
    "fingers positive",
    "forearm fracture",
    "humerus fracture",
    "humerus",
    "shoulder fracture",
    "wrist positive"
  ]

  /** Detector.kt: CONFIDENCE_THRESHOLD 0.15, IOU_THRESHOLD 0.15, height from channel 3. */
  const DetectorConfig: Config := Config(0.15, 0.15, Labels, 3)

  /** OfflineDetector2.kt: CONFIDENCE_THRESHOLD 0.2, IOU_THRESHOLD 0.5, and
      the height read from channel 2, the width channel. */
  const OfflineConfig: Config := Config(0.2, 0.5, Labels, 2)

  /** OfflineDetector2.kt with its height read from channel 3, as the
      centre-form layout intends. */
  const CorrectedOfflineConfig: Config := Config(0.2, 0.5, Labels, 3)

  /** The guard both `detect` functions start with: no interpreter, or any
      shape value 0, means an empty result. */
  predicate Degenerate(loaded: bool, g: Geometry)
  {
    !loaded || g.tensorWidth == 0 || g.tensorHeight == 0 || g.numChannel == 0 || g.numElements == 0
  }

  function DetectorOverlaps(): (BoundingBox, BoundingBox) -> bool
  {
    Overlaps(KeepBelow, DetectorConfig.iouThreshold)
  }

  function OfflineOverlaps(): (BoundingBox, BoundingBox) -> bool
  {
    Overlaps(RemoveAtLeast, OfflineConfig.iouThreshold)
  }

  /** Boxes drawn from a list of candidates are candidates. */
  lemma FromCandidates(boxes: seq<BoundingBox>, candidates: seq<BoundingBox>, cfg: Config)
    requires multiset(boxes) <= multiset(candidates)
    requires forall i :: 0 <= i < |candidates| ==> Candidate(candidates[i], cfg)
    ensures forall i :: 0 <= i < |boxes| ==> Candidate(boxes[i], cfg)
  {
    forall i | 0 <= i < |boxes| ensures Candidate(boxes[i], cfg) {
      assert boxes[i] in multiset(candidates);
    }
  }

  lemma FromCandidatesSquare(boxes: seq<BoundingBox>, candidates: seq<BoundingBox>)
    requires multiset(boxes) <= multiset(candidates)
    requires forall i :: 0 <= i < |candidates| ==> candidates[i].h == candidates[i].w
    ensures forall i :: 0 <= i < |boxes| ==> boxes[i].h == boxes[i].w
  {
    forall i | 0 <= i < |boxes| ensures boxes[i].h == boxes[i].w {
      assert boxes[i] in multiset(candidates);
    }
  }

  /** Detector.kt's `detect` after inference: `bestBox` then `applyNMS`. */
  function DetectorDetect(loaded: bool, g: Geometry, tensor: seq<real>): (boxes: seq<BoundingBox>)
    requires Fits(tensor, g)
    ensures Degenerate(loaded, g) ==> boxes == []
    ensures !Degenerate(loaded, g) ==> multiset(boxes) <= multiset(DecodeAll(tensor, g, DetectorConfig))
    ensures !Degenerate(loaded, g) ==> (boxes == [] <==> DecodeAll(tensor, g, DetectorConfig) == [])
    ensures forall i :: 0 <= i < |boxes| ==> Candidate(boxes[i], DetectorConfig)
    ensures Descending(boxes)
    ensures forall i, j :: 0 <= i < j < |boxes| ==> Below(IoU(boxes[i], boxes[j]), 0.15)
  {
    if Degenerate(loaded, g) then []
    else
      var candidates := DecodeAll(tensor, g, DetectorConfig);
      if candidates == [] then []
      else
        var selected := Greedy(candidates, DetectorOverlaps());
        GreedyDescending(candidates, DetectorOverlaps());
        GreedySpread(candidates, DetectorOverlaps());
        SpreadKeepBelow(selected, DetectorConfig.iouThreshold);
        FromCandidates(selected, candidates, DetectorConfig);
        selected
  }

  /** OfflineDetector2.kt's `detect` after inference: `bestBox` then `applyNMS`. */
  function OfflineDetect(loaded: bool, g: Geometry, tensor: seq<real>): (boxes: seq<BoundingBox>)
    requires Fits(tensor, g)
    ensures Degenerate(loaded, g) ==> boxes == []
    ensures !Degenerate(loaded, g) ==> multiset(boxes) <= multiset(DecodeAll(tensor, g, OfflineConfig))
    ensures !Degenerate(loaded, g) ==> (boxes == [] <==> DecodeAll(tensor, g, OfflineConfig) == [])
    ensures forall i :: 0 <= i < |boxes| ==> Candidate(boxes[i], OfflineConfig) && boxes[i].h == boxes[i].w
    ensures Descending(boxes)
    ensures forall i, j :: 0 <= i < j < |boxes| ==> !AtLeast(IoU(boxes[i], boxes[j]), 0.5)
  {
    if Degenerate(loaded, g) then []
    else
      var candidates := DecodeAll(tensor, g, OfflineConfig);
      if candidates == [] then []
      else
        var sorted := SortDescending(candidates);
        SortedIsGreedy(sorted, OfflineOverlaps());
        GreedyDescending(sorted, OfflineOverlaps());
        GreedySpread(sorted, OfflineOverlaps());
        var selected := GreedySorted(sorted, OfflineOverlaps());
        SpreadRemoveAtLeast(selected, OfflineConfig.iouThreshold);
        FromCandidates(selected, candidates, OfflineConfig);
        FromCandidatesSquare(selected, candidates);
        selected
  }

  /** OfflineDetector2.kt's `detect` with the height channel corrected. */
  function CorrectedOfflineDetect(loaded: bool, g: Geometry, tensor: seq<real>): (boxes: seq<BoundingBox>)
    requires Fits(tensor, g)
    ensures Degenerate(loaded, g) ==> boxes == []
    ensures !Degenerate(loaded, g) ==> multiset(boxes) <= multiset(DecodeAll(tensor, g, CorrectedOfflineConfig))
    ensures !Degenerate(loaded, g) ==> (boxes == [] <==> DecodeAll(tensor, g, CorrectedOfflineConfig) == [])
    ensures forall i :: 0 <= i < |boxes| ==> Candidate(boxes[i], CorrectedOfflineConfig)
    ensures Descending(boxes)
    ensures forall i, j :: 0 <= i < j < |boxes| ==> !AtLeast(IoU(boxes[i], boxes[j]), 0.5)
  {
    if Degenerate(loaded, g) then []
    else
      var candidates := DecodeAll(tensor, g, CorrectedOfflineConfig);
      if candidates == [] then []
      else
        var sorted := SortDescending(candidates);
        SortedIsGreedy(sorted, OfflineOverlaps());
        GreedyDescending(sorted, OfflineOverlaps());
        GreedySpread(sorted, OfflineOverlaps());
        var selected := GreedySorted(sorted, OfflineOverlaps());
        SpreadRemoveAtLeast(selected, CorrectedOfflineConfig.iouThreshold);
        FromCandidates(selected, candidates, CorrectedOfflineConfig);
        selected
  }

  /** Detector.kt's first detection has the highest score of any candidate. */
  lemma DetectorFirstIsMax(loaded: bool, g: Geometry, tensor: seq<real>, b: BoundingBox)
    requires Fits(tensor, g) && !Degenerate(loaded, g)
    requires b in DecodeAll(tensor, g, DetectorConfig)
    ensures DetectorDetect(loaded, g, tensor) != []
    ensures b.cnf <= DetectorDetect(loaded, g, tensor)[0].cnf
  {
    GreedyFirstIsMax(DecodeAll(tensor, g, DetectorConfig), DetectorOverlaps());
  }

  /** OfflineDetector2.kt's first detection has the highest score of any candidate. */
  lemma OfflineFirstIsMax(loaded: bool, g: Geometry, tensor: seq<real>, b: BoundingBox)
    requires Fits(tensor, g) && !Degenerate(loaded, g)
    requires b in DecodeAll(tensor, g, OfflineConfig)
    ensures OfflineDetect(loaded, g, tensor) != []
    ensures b.cnf <= OfflineDetect(loaded, g, tensor)[0].cnf
  {
    var candidates := DecodeAll(tensor, g, OfflineConfig);
    var sorted := SortDescending(candidates);
    assert b in multiset(sorted);
    SortedIsGreedy(sorted, OfflineOverlaps());
    GreedyFirstIsMax(sorted, OfflineOverlaps());
  }

  /** Every candidate Detector.kt drops was suppressed by a detection of at
      least its score: their IoU is not below 0.15. */
  lemma DetectorCovers(loaded: bool, g: Geometry, tensor: seq<real>, b: BoundingBox)
    requires Fits(tensor, g) && !Degenerate(loaded, g)
    requires b in DecodeAll(tensor, g, DetectorConfig)
    ensures var boxes := DetectorDetect(loaded, g, tensor);
      b in boxes || exists i :: 0 <= i < |boxes| && boxes[i].cnf >= b.cnf && !Below(IoU(boxes[i], b), 0.15)
  {
    var candidates := DecodeAll(tensor, g, DetectorConfig);
    GreedyCovers(candidates, DetectorOverlaps(), b);
    var boxes := DetectorDetect(loaded, g, tensor);
    if b !in boxes {
      var i :| 0 <= i < |boxes| && boxes[i].cnf >= b.cnf && DetectorOverlaps()(boxes[i], b);
    }
  }

  /** Every candidate OfflineDetector2.kt drops was suppressed by a
      detection of at least its score: their IoU is at least 0.5. */
  lemma OfflineCovers(loaded: bool, g: Geometry, tensor: seq<real>, b: BoundingBox)
    requires Fits(tensor, g) && !Degenerate(loaded, g)
    requires b in DecodeAll(tensor, g, OfflineConfig)
    ensures var boxes := OfflineDetect(loaded, g, tensor);
      b in boxes || exists i :: 0 <= i < |boxes| && boxes[i].cnf >= b.cnf && AtLeast(IoU(boxes[i], b), 0.5)
  {
    var candidates := DecodeAll(tensor, g, OfflineConfig);
    SortedGreedyCovers(candidates, OfflineOverlaps(), b);
    var boxes := OfflineDetect(loaded, g, tensor);
    assert boxes == GreedySorted(SortDescending(candidates), OfflineOverlaps());
    if b !in boxes {
      var i :| 0 <= i < |boxes| && boxes[i].cnf >= b.cnf && OfflineOverlaps()(boxes[i], b);
    }
  }

  /** OfflineDetector2.kt's stable sort makes boxes of equal score come out
      in the order their positions were scanned. */
  lemma OfflineTieOrder(loaded: bool, g: Geometry, tensor: seq<real>, v: real)
    requires Fits(tensor, g) && !Degenerate(loaded, g)
    ensures Subsequence(WithConfidence(OfflineDetect(loaded, g, tensor), v),
                        WithConfidence(DecodeAll(tensor, g, OfflineConfig), v))
  {
    var candidates := DecodeAll(tensor, g, OfflineConfig);
    var boxes := OfflineDetect(loaded, g, tensor);
    if candidates == [] {
      assert boxes == [];
    } else {
      var sorted := SortDescending(candidates);
      GreedySortedSubsequence(sorted, OfflineOverlaps());
      WithConfidenceSubsequence(boxes, sorted, v);
      SortStable(candidates, v);
    }
  }

  /** Running Detector.kt's suppression again on its own result changes nothing. */
  lemma DetectorNmsIdempotent(loaded: bool, g: Geometry, tensor: seq<real>)
    requires Fits(tensor, g)
    ensures var boxes := DetectorDetect(loaded, g, tensor);
      Greedy(boxes, DetectorOverlaps()) == boxes
  {
    var boxes := DetectorDetect(loaded, g, tensor);
    if boxes != [] {
      var candidates := DecodeAll(tensor, g, DetectorConfig);
      GreedyIdempotent(candidates, DetectorOverlaps());
    }
  }

  /** Running OfflineDetector2.kt's sort-and-suppress again on its own
      result changes nothing. */
  lemma OfflineNmsIdempotent(loaded: bool, g: Geometry, tensor: seq<real>)
    requires Fits(tensor, g)
    ensures var boxes := OfflineDetect(loaded, g, tensor);
      GreedySorted(SortDescending(boxes), OfflineOverlaps()) == boxes
  {
    var boxes := OfflineDetect(loaded, g, tensor);
    SortSorted(boxes);
    if boxes != [] {
      var sorted := SortDescending(DecodeAll(tensor, g, OfflineConfig));
      SortedIsGreedy(sorted, OfflineOverlaps());
      GreedySpread(sorted, OfflineOverlaps());
      GreedySortedFixpoint(boxes, OfflineOverlaps());
    }
  }
}
