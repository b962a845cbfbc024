/** Decoding of a YOLO-style output tensor into candidate boxes, as the
    `bestBox` loop of both detectors does it. The tensor is the flat Float32
    buffer of shape [1, numChannel, numElements]: the value of channel `j` at
    position `c` sits at index `c + numElements * j`. Channels 0..3 hold the
    centre-form geometry and channels 4.. one score per class. */
module Decode {
  import opened Wrappers
  import opened Boxes

  /** The shape values read from the model when it is loaded. */
  datatype Geometry = Geometry(tensorWidth: nat, tensorHeight: nat, numChannel: nat, numElements: nat)

  /** What distinguishes one detector from another: its two thresholds, its
      label table and the channel its height is read from. */
  datatype Config = Config(confThreshold: real, iouThreshold: real, labels: seq<string>, heightChannel: nat)

  /** The buffer holds every channel of every position. */
  predicate Fits(tensor: seq<real>, g: Geometry)
  {
    |tensor| >= g.numChannel * g.numElements
  }

  lemma IndexInBounds(n: nat, m: nat, c: nat, j: nat)
    requires c < n && j < m
    ensures c + n * j < n * m
  {
    assert n * (j + 1) == n * j + n;
    assert n * (j + 1) <= n * m;
  }

  /** The value of channel `j` at position `c`. */
  function At(tensor: seq<real>, g: Geometry, j: nat, c: nat): (v: real)
    requires Fits(tensor, g) && j < g.numChannel && c < g.numElements
  {
    IndexInBounds(g.numElements, g.numChannel, c, j);
    tensor[c + g.numElements * j]
  }

  /** What the class scan knows after looking at channels 4..upto-1 of
      position `c`: either nothing beat the initial -1 (index -1), or
      `conf` is the score of channel `idx + 4`, no scanned score exceeds it
      and every earlier channel scored strictly less (the lowest channel
      wins a tie). */
  predicate ScannedBest(tensor: seq<real>, g: Geometry, c: nat, upto: nat, conf: real, idx: int)
    requires Fits(tensor, g) && c < g.numElements && upto <= g.numChannel
  {
    if idx == -1 then
      && conf == -1.0
      && forall j :: 4 <= j < upto ==> At(tensor, g, j, c) <= -1.0
    else
      && 0 <= idx && idx + 4 < upto
      && conf == At(tensor, g, idx + 4, c)
      && conf > -1.0
      && (forall j :: 4 <= j < upto ==> At(tensor, g, j, c) <= conf)
      && (forall j :: 4 <= j < idx + 4 ==> At(tensor, g, j, c) < conf)
  }

  /** The inner `while (j < numChannel)` loop: a running maximum that is
      replaced only by a strictly greater score. */
  function Scan(tensor: seq<real>, g: Geometry, c: nat, j: nat, conf: real, idx: int): (best: (real, int))
    requires Fits(tensor, g) && c < g.numElements && 4 <= j <= g.numChannel
    requires ScannedBest(tensor, g, c, j, conf, idx)
    ensures ScannedBest(tensor, g, c, g.numChannel, best.0, best.1)
    decreases g.numChannel - j
  {
    if j == g.numChannel then (conf, idx)
    else
      var v := At(tensor, g, j, c);
      if v > conf then Scan(tensor, g, c, j + 1, v, j - 4)
      else Scan(tensor, g, c, j + 1, conf, idx)
  }

  /** The best class score of position `c` and its class index, starting
      from `maxConf = -1`, `maxIdx = -1`. */
  function BestClass(tensor: seq<real>, g: Geometry, c: nat): (best: (real, int))
    requires Fits(tensor, g) && c < g.numElements
    ensures g.numChannel <= 4 ==> best == (-1.0, -1)
    ensures best.1 == -1 ==> best.0 == -1.0
    ensures best.1 != -1 ==>
      && 0 <= best.1 && best.1 + 4 < g.numChannel
      && best.0 == At(tensor, g, best.1 + 4, c)
      && (forall j :: 4 <= j < best.1 + 4 ==> At(tensor, g, j, c) < best.0)
    ensures forall j :: 4 <= j < g.numChannel ==> At(tensor, g, j, c) <= best.0
  {
    if g.numChannel <= 4 then (-1.0, -1)
    else Scan(tensor, g, c, 4, -1.0, -1)
  }

  /** Both corners of a centre-form interval lie in [0, 1]. */
  predicate InUnit(v: real) { 0.0 <= v <= 1.0 }

  /** What every candidate satisfies: its score is strictly above the
      threshold, its label is the table entry of its class, its corners are
      derived from its centre form, and they lie in the unit square. */
  predicate Candidate(b: BoundingBox, cfg: Config)
  {
    && b.cnf > cfg.confThreshold
    && 0 <= b.cls < |cfg.labels|
    && b.clsName == cfg.labels[b.cls]
    && b.x1 == b.cx - b.w / 2.0 && b.x2 == b.cx + b.w / 2.0
    && b.y1 == b.cy - b.h / 2.0 && b.y2 == b.cy + b.h / 2.0
    && InUnit(b.x1) && InUnit(b.y1) && InUnit(b.x2) && InUnit(b.y2)
  }

  /** The configuration reads height from one of the geometry channels. */
  predicate ValidConfig(cfg: Config)
  {
    cfg.heightChannel < 4
  }

  /** The box a position describes: centre form read from channels 0, 1, 2
      and the configured height channel, corners derived from it. */
  function BoxAt(tensor: seq<real>, g: Geometry, cfg: Config, c: nat, cnf: real, cls: nat): (b: BoundingBox)
    requires Fits(tensor, g) && ValidConfig(cfg) && 4 <= g.numChannel && c < g.numElements
    requires cls < |cfg.labels|
  {
    var cx := At(tensor, g, 0, c);
    var cy := At(tensor, g, 1, c);
    var w := At(tensor, g, 2, c);
    var h := At(tensor, g, cfg.heightChannel, c);
    BoundingBox(cx - w / 2.0, cy - h / 2.0, cx + w / 2.0, cy + h / 2.0, cx, cy, w, h, cnf, cls, cfg.labels[cls])
  }

  /** All four corners lie in [0, 1]; boxes that fail are rejected, not clamped. */
  predicate CornersInUnit(b: BoundingBox)
  {
    InUnit(b.x1) && InUnit(b.y1) && InUnit(b.x2) && InUnit(b.y2)
  }

  /** One iteration of the outer `for (c in 0 until numElements)` loop. */
  function DecodeAt(tensor: seq<real>, g: Geometry, cfg: Config, c: nat): (r: Option<BoundingBox>)
    requires Fits(tensor, g) && ValidConfig(cfg) && c < g.numElements
    ensures r.Some? <==>
      && BestClass(tensor, g, c).0 > cfg.confThreshold
      && 0 <= BestClass(tensor, g, c).1 < |cfg.labels|
      && CornersInUnit(BoxAt(tensor, g, cfg, c, BestClass(tensor, g, c).0, BestClass(tensor, g, c).1))
    ensures r.Some? ==>
      && Candidate(r.value, cfg)
      && r.value.cx == At(tensor, g, 0, c)
      && r.value.cy == At(tensor, g, 1, c)
      && r.value.w == At(tensor, g, 2, c)
      && r.value.h == At(tensor, g, cfg.heightChannel, c)
      && r.value.cls + 4 < g.numChannel
      && r.value.cnf == At(tensor, g, r.value.cls + 4, c)
      && (forall j :: 4 <= j < g.numChannel ==> At(tensor, g, j, c) <= r.value.cnf)
      && (forall j :: 4 <= j < r.value.cls + 4 ==> At(tensor, g, j, c) < r.value.cnf)
  {
    var (maxConf, maxIdx) := BestClass(tensor, g, c);
    if !(maxConf > cfg.confThreshold) then None
    else if !(0 <= maxIdx < |cfg.labels|) then None
    else
      var b := BoxAt(tensor, g, cfg, c, maxConf, maxIdx);
      if !CornersInUnit(b) then None
      else Some(b)
  }

  /** The candidates of positions 0..k-1, in position order. */
  function DecodeUpTo(tensor: seq<real>, g: Geometry, cfg: Config, k: nat): (boxes: seq<BoundingBox>)
    requires Fits(tensor, g) && ValidConfig(cfg) && k <= g.numElements
    ensures |boxes| <= k
    ensures forall i :: 0 <= i < |boxes| ==> Candidate(boxes[i], cfg)
    ensures cfg.heightChannel == 2 ==> forall i :: 0 <= i < |boxes| ==> boxes[i].h == boxes[i].w
    ensures g.numChannel <= 4 ==> boxes == []
  {
    if k == 0 then []
    else
      var prefix := DecodeUpTo(tensor, g, cfg, k - 1);
      match DecodeAt(tensor, g, cfg, k - 1)
      case None => prefix
      case Some(b) => prefix + [b]
  }

  /** The whole `bestBox` scan, before suppression. */
  function DecodeAll(tensor: seq<real>, g: Geometry, cfg: Config): (boxes: seq<BoundingBox>)
    requires Fits(tensor, g) && ValidConfig(cfg)
    ensures |boxes| <= g.numElements
    ensures forall i :: 0 <= i < |boxes| ==> Candidate(boxes[i], cfg)
    ensures cfg.heightChannel == 2 ==> forall i :: 0 <= i < |boxes| ==> boxes[i].h == boxes[i].w
    ensures g.numElements == 0 || g.numChannel <= 4 ==> boxes == []
  {
    DecodeUpTo(tensor, g, cfg, g.numElements)
  }

  /** The decoded list holds exactly the boxes that some position yields. */
  lemma {:induction false} DecodeUpToExactly(tensor: seq<real>, g: Geometry, cfg: Config, k: nat, b: BoundingBox)
    requires Fits(tensor, g) && ValidConfig(cfg) && k <= g.numElements
    ensures b in DecodeUpTo(tensor, g, cfg, k) <==>
            exists c :: 0 <= c < k && DecodeAt(tensor, g, cfg, c) == Some(b)
  {
    if k > 0 {
      DecodeUpToExactly(tensor, g, cfg, k - 1, b);
    }
  }

  /** Every decoded box comes from one position of the tensor, and carries
      everything `DecodeAt` promises about that position. */
  lemma DecodedFromPosition(tensor: seq<real>, g: Geometry, cfg: Config, b: BoundingBox)
    requires Fits(tensor, g) && ValidConfig(cfg) && b in DecodeAll(tensor, g, cfg)
    ensures exists c :: 0 <= c < g.numElements && DecodeAt(tensor, g, cfg, c) == Some(b)
  {
    DecodeUpToExactly(tensor, g, cfg, g.numElements, b);
  }

  /** A position whose every class score is at most the threshold (in
      particular, one whose best score equals it) yields no candidate. */
  lemma ThresholdExclusive(tensor: seq<real>, g: Geometry, cfg: Config, c: nat)
    requires Fits(tensor, g) && ValidConfig(cfg) && c < g.numElements
    requires forall j :: 4 <= j < g.numChannel ==> At(tensor, g, j, c) <= cfg.confThreshold
    requires cfg.confThreshold >= -1.0
    ensures DecodeAt(tensor, g, cfg, c) == None
  {
    var best := BestClass(tensor, g, c);
    if best.1 != -1 {
      assert best.0 == At(tensor, g, best.1 + 4, c);
    }
  }

  /** A position whose best class has no label yields no candidate, whatever
      its score. */
  lemma UnlabelledClassDropped(tensor: seq<real>, g: Geometry, cfg: Config, c: nat)
    requires Fits(tensor, g) && ValidConfig(cfg) && c < g.numElements
    requires BestClass(tensor, g, c).1 >= |cfg.labels|
    ensures DecodeAt(tensor, g, cfg, c) == None
  {
  }

  /** A candidate with non-negative width and height has its corners in
      order, so it meets the overlap measure's assumptions. */
  lemma CandidateConsistent(b: BoundingBox, cfg: Config)
    requires Candidate(b, cfg) && b.w >= 0.0 && b.h >= 0.0
    ensures Consistent(b)
  {
  }
}
