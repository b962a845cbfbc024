/** Greedy non-maximum suppression over decoded candidates, in the two
    forms the detectors use: a priority queue polled for its maximum
    (`Greedy`), and a list sorted once by descending confidence and consumed
    from the front (`GreedySorted`). Both are parameterised by `overlaps`,
    the test under which a selected box suppresses a remaining one; overlap
    is measured across classes. */
module Nms {
  import opened Boxes

  /** How a detector decides that a remaining box overlaps the selected one
      too much: `KeepBelow` keeps it only when `iou < t` (so NaN suppresses),
      `RemoveAtLeast` removes it only when `iou >= t` (so NaN survives). */
  datatype Rule = KeepBelow | RemoveAtLeast

  predicate Suppresses(rule: Rule, q: Quotient, t: real)
  {
    match rule
    case KeepBelow => !Below(q, t)
    case RemoveAtLeast => AtLeast(q, t)
  }

  /** The suppression test of a rule and threshold, on the IoU of two boxes. */
  function Overlaps(rule: Rule, t: real): (BoundingBox, BoundingBox) -> bool
  {
    (a: BoundingBox, b: BoundingBox) => Suppresses(rule, IoU(a, b), t)
  }

  /** Under the "keep if below" rule, spread boxes have pairwise IoU below `t`. */
  lemma SpreadKeepBelow(s: seq<BoundingBox>, t: real)
    requires Spread(s, Overlaps(KeepBelow, t))
    ensures forall i, j :: 0 <= i < j < |s| ==> Below(IoU(s[i], s[j]), t)
  {
    forall i, j | 0 <= i < j < |s| ensures Below(IoU(s[i], s[j]), t) {
      assert !Overlaps(KeepBelow, t)(s[i], s[j]);
    }
  }

  /** Under the "remove if at least" rule, no two spread boxes reach IoU `t`. */
  lemma SpreadRemoveAtLeast(s: seq<BoundingBox>, t: real)
    requires Spread(s, Overlaps(RemoveAtLeast, t))
    ensures forall i, j :: 0 <= i < j < |s| ==> !AtLeast(IoU(s[i], s[j]), t)
  {
    forall i, j | 0 <= i < j < |s| ensures !AtLeast(IoU(s[i], s[j]), t) {
      assert !Overlaps(RemoveAtLeast, t)(s[i], s[j]);
    }
  }

  /** Confidence never increases along the sequence. */
  predicate Descending(s: seq<BoundingBox>)
  {
    forall i, j :: 0 <= i < j < |s| ==> s[i].cnf >= s[j].cnf
  }

  /** No box of the sequence suppresses a later one. */
  predicate Spread(s: seq<BoundingBox>, overlaps: (BoundingBox, BoundingBox) -> bool)
  {
    forall i, j :: 0 <= i < j < |s| ==> !overlaps(s[i], s[j])
  }

  /** The position of the first box of maximal confidence: the box a
      priority queue ordered by descending confidence hands out. Java's
      queue does not say which of several equal maxima it polls; this model
      takes the first. */
  function FirstMax(s: seq<BoundingBox>): (k: nat)
    requires |s| > 0
    ensures k < |s|
    ensures forall j :: 0 <= j < |s| ==> s[j].cnf <= s[k].cnf
    ensures forall j :: 0 <= j < k ==> s[j].cnf < s[k].cnf
  {
    if |s| == 1 then 0
    else
      var k := FirstMax(s[1..]);
      if s[0].cnf >= s[k + 1].cnf then 0 else k + 1
  }

  /** The sequence with position `k` taken out. */
  function Without(s: seq<BoundingBox>, k: nat): (r: seq<BoundingBox>)
    requires k < |s|
    ensures multiset(r) + multiset{s[k]} == multiset(s)
    ensures |r| == |s| - 1
  {
    assert s == s[..k] + [s[k]] + s[k + 1..];
    s[..k] + s[k + 1..]
  }

  /** The remaining boxes that `best` does not suppress, in their order. */
  function Survivors(best: BoundingBox, rest: seq<BoundingBox>, overlaps: (BoundingBox, BoundingBox) -> bool): (r: seq<BoundingBox>)
    ensures |r| <= |rest|
    ensures multiset(r) <= multiset(rest)
    ensures forall x :: x in r <==> x in rest && !overlaps(best, x)
  {
    if rest == [] then []
    else
      var tail := Survivors(best, rest[1..], overlaps);
      assert rest == [rest[0]] + rest[1..];
      if overlaps(best, rest[0]) then tail
      else [rest[0]] + tail
  }

  /** A subsequence of a descending list is descending. */
  lemma {:induction false} SurvivorsDescending(best: BoundingBox, rest: seq<BoundingBox>, overlaps: (BoundingBox, BoundingBox) -> bool)
    requires Descending(rest)
    ensures Descending(Survivors(best, rest, overlaps))
  {
    if rest != [] {
      var tail := Survivors(best, rest[1..], overlaps);
      SurvivorsDescending(best, rest[1..], overlaps);
      assert forall i :: 1 <= i < |rest| ==> rest[i].cnf <= rest[0].cnf;
      assert forall y :: y in rest[1..] ==> y.cnf <= rest[0].cnf;
      assert forall y :: y in tail ==> y in rest[1..];
    }
  }

  /** Detector.kt's loop: poll the best box, select it, keep the rest that
      it does not suppress, repeat. */
  function Greedy(pool: seq<BoundingBox>, overlaps: (BoundingBox, BoundingBox) -> bool): (sel: seq<BoundingBox>)
    ensures |sel| <= |pool|
    ensures multiset(sel) <= multiset(pool)
    ensures pool == [] <==> sel == []
    decreases |pool|
  {
    if pool == [] then []
    else
      var k := FirstMax(pool);
      [pool[k]] + Greedy(Survivors(pool[k], Without(pool, k), overlaps), overlaps)
  }

  /** The boxes a later round selects are survivors of the earlier one. */
  lemma SelectedSurvived(best: BoundingBox, rest: seq<BoundingBox>, overlaps: (BoundingBox, BoundingBox) -> bool, x: BoundingBox)
    requires x in Greedy(Survivors(best, rest, overlaps), overlaps)
    ensures x in rest && !overlaps(best, x)
  {
    var survivors := Survivors(best, rest, overlaps);
    assert x in multiset(Greedy(survivors, overlaps));
    assert x in multiset(survivors);
  }

  lemma WithoutMember(s: seq<BoundingBox>, k: nat, x: BoundingBox)
    requires k < |s| && x in Without(s, k)
    ensures x in s
  {
    assert x in multiset(Without(s, k));
  }

  /** Every box selected after the first round came from the survivors of
      that round, so none outranks the first selection and none is
      suppressed by it. */
  lemma FirstRound(pool: seq<BoundingBox>, overlaps: (BoundingBox, BoundingBox) -> bool)
    requires pool != []
    ensures var sel := Greedy(pool, overlaps);
      && sel[0] == pool[FirstMax(pool)]
      && sel[1..] == Greedy(Survivors(sel[0], Without(pool, FirstMax(pool)), overlaps), overlaps)
      && forall j :: 1 <= j < |sel| ==> sel[j].cnf <= sel[0].cnf && !overlaps(sel[0], sel[j])
  {
    var k := FirstMax(pool);
    var best := pool[k];
    var later := Greedy(Survivors(best, Without(pool, k), overlaps), overlaps);
    var sel := Greedy(pool, overlaps);
    assert sel == [best] + later;
    forall j | 1 <= j < |sel|
      ensures sel[j].cnf <= best.cnf && !overlaps(best, sel[j])
    {
      assert sel[j] == later[j - 1];
      SelectedSurvived(best, Without(pool, k), overlaps, sel[j]);
      WithoutMember(pool, k, sel[j]);
    }
  }

  /** The selection comes in descending confidence. */
  lemma {:induction false} GreedyDescending(pool: seq<BoundingBox>, overlaps: (BoundingBox, BoundingBox) -> bool)
    ensures Descending(Greedy(pool, overlaps))
    decreases |pool|
  {
    if pool != [] {
      var sel := Greedy(pool, overlaps);
      FirstRound(pool, overlaps);
      GreedyDescending(Survivors(sel[0], Without(pool, FirstMax(pool)), overlaps), overlaps);
      forall i, j | 0 <= i < j < |sel| ensures sel[i].cnf >= sel[j].cnf {
        if i > 0 {
          assert sel[i] == sel[1..][i - 1] && sel[j] == sel[1..][j - 1];
        }
      }
    }
  }

  /** No selected box suppresses a box selected after it. */
  lemma {:induction false} GreedySpread(pool: seq<BoundingBox>, overlaps: (BoundingBox, BoundingBox) -> bool)
    ensures Spread(Greedy(pool, overlaps), overlaps)
    decreases |pool|
  {
    if pool != [] {
      var sel := Greedy(pool, overlaps);
      FirstRound(pool, overlaps);
      GreedySpread(Survivors(sel[0], Without(pool, FirstMax(pool)), overlaps), overlaps);
      forall i, j | 0 <= i < j < |sel| ensures !overlaps(sel[i], sel[j]) {
        if i > 0 {
          assert sel[i] == sel[1..][i - 1] && sel[j] == sel[1..][j - 1];
        }
      }
    }
  }

  /** The first selected box has the highest confidence of the whole input. */
  lemma GreedyFirstIsMax(pool: seq<BoundingBox>, overlaps: (BoundingBox, BoundingBox) -> bool)
    requires pool != []
    ensures forall b :: b in pool ==> b.cnf <= Greedy(pool, overlaps)[0].cnf
  {
    FirstRound(pool, overlaps);
  }

  /** OfflineDetector2.kt's loop over a list sorted by descending
      confidence: take the first box, select it, remove every later box it
      suppresses, repeat. */
  function GreedySorted(sorted: seq<BoundingBox>, overlaps: (BoundingBox, BoundingBox) -> bool): (sel: seq<BoundingBox>)
    ensures |sel| <= |sorted|
    ensures multiset(sel) <= multiset(sorted)
    ensures sorted == [] <==> sel == []
    decreases |sorted|
  {
    if sorted == [] then []
    else
      assert sorted == [sorted[0]] + sorted[1..];
      [sorted[0]] + GreedySorted(Survivors(sorted[0], sorted[1..], overlaps), overlaps)
  }

  /** On a list already in descending order, taking the first box is taking
      a maximal box, so the two loops select the same boxes in the same order. */
  lemma {:induction false} SortedIsGreedy(s: seq<BoundingBox>, overlaps: (BoundingBox, BoundingBox) -> bool)
    requires Descending(s)
    ensures GreedySorted(s, overlaps) == Greedy(s, overlaps)
    decreases |s|
  {
    if s != [] {
      assert FirstMax(s) == 0;
      assert Without(s, 0) == s[1..];
      SurvivorsDescending(s[0], s[1..], overlaps);
      SortedIsGreedy(Survivors(s[0], s[1..], overlaps), overlaps);
    }
  }

  lemma WithoutKeeps(s: seq<BoundingBox>, k: nat, x: BoundingBox)
    requires k < |s| && x in s && x != s[k]
    ensures x in Without(s, k)
  {
    assert x in multiset(s);
  }

  /** Nothing is lost without a reason: every input box is selected, or a
      selected box of at least its confidence suppresses it. */
  lemma {:induction false} GreedyCovers(pool: seq<BoundingBox>, overlaps: (BoundingBox, BoundingBox) -> bool, b: BoundingBox)
    requires b in pool
    ensures var sel := Greedy(pool, overlaps);
      b in sel || exists i :: 0 <= i < |sel| && sel[i].cnf >= b.cnf && overlaps(sel[i], b)
    decreases |pool|
  {
    var k := FirstMax(pool);
    var best := pool[k];
    var rest := Survivors(best, Without(pool, k), overlaps);
    var sel := Greedy(pool, overlaps);
    FirstRound(pool, overlaps);
    if b != best {
      WithoutKeeps(pool, k, b);
      var j :| 0 <= j < |pool| && pool[j] == b;
      assert b.cnf <= best.cnf;
      if !overlaps(best, b) {
        assert b in rest;
        GreedyCovers(rest, overlaps, b);
        var later := Greedy(rest, overlaps);
        assert later == sel[1..];
        if b !in later {
          var i :| 0 <= i < |later| && later[i].cnf >= b.cnf && overlaps(later[i], b);
          assert sel[i + 1] == later[i];
        } else {
          assert b in sel;
        }
      }
    }
  }

  /** The same for the sorted-list loop run on the sorted input. */
  lemma SortedGreedyCovers(pool: seq<BoundingBox>, overlaps: (BoundingBox, BoundingBox) -> bool, b: BoundingBox)
    requires b in pool
    ensures var sel := GreedySorted(SortDescending(pool), overlaps);
      b in sel || exists i :: 0 <= i < |sel| && sel[i].cnf >= b.cnf && overlaps(sel[i], b)
  {
    var sorted := SortDescending(pool);
    assert b in multiset(sorted);
    SortedIsGreedy(sorted, overlaps);
    GreedyCovers(sorted, overlaps, b);
  }

  /** A remaining list that nothing suppresses survives whole. */
  lemma {:induction false} SurvivorsAll(best: BoundingBox, rest: seq<BoundingBox>, overlaps: (BoundingBox, BoundingBox) -> bool)
    requires forall i :: 0 <= i < |rest| ==> !overlaps(best, rest[i])
    ensures Survivors(best, rest, overlaps) == rest
  {
    if rest != [] {
      SurvivorsAll(best, rest[1..], overlaps);
      assert rest == [rest[0]] + rest[1..];
    }
  }

  /** A list in which no box suppresses a later one passes through the
      sorted-list loop unchanged. */
  lemma {:induction false} GreedySortedFixpoint(s: seq<BoundingBox>, overlaps: (BoundingBox, BoundingBox) -> bool)
    requires Spread(s, overlaps)
    ensures GreedySorted(s, overlaps) == s
    decreases |s|
  {
    if s != [] {
      SpreadSplit(s, overlaps);
      SurvivorsAll(s[0], s[1..], overlaps);
      GreedySortedFixpoint(s[1..], overlaps);
      assert GreedySorted(s, overlaps) == [s[0]] + GreedySorted(s[1..], overlaps);
      assert s == [s[0]] + s[1..];
    }
  }

  /** The head of a spread list suppresses nothing after it, and the rest
      of the list is spread. */
  lemma SpreadSplit(s: seq<BoundingBox>, overlaps: (BoundingBox, BoundingBox) -> bool)
    requires s != [] && Spread(s, overlaps)
    ensures forall i :: 0 <= i < |s[1..]| ==> !overlaps(s[0], s[1..][i])
    ensures Spread(s[1..], overlaps)
  {
    forall i | 0 <= i < |s[1..]| ensures !overlaps(s[0], s[1..][i]) {
      assert s[1..][i] == s[i + 1];
    }
    forall i, j | 0 <= i < j < |s[1..]| ensures !overlaps(s[1..][i], s[1..][j]) {
      assert s[1..][i] == s[i + 1] && s[1..][j] == s[j + 1];
    }
  }

  /** Suppression leaves its own output unchanged. */
  lemma GreedyFixpoint(s: seq<BoundingBox>, overlaps: (BoundingBox, BoundingBox) -> bool)
    requires Descending(s) && Spread(s, overlaps)
    ensures Greedy(s, overlaps) == s
  {
    SortedIsGreedy(s, overlaps);
    GreedySortedFixpoint(s, overlaps);
  }

  /** Running suppression twice gives the same list as running it once. */
  lemma GreedyIdempotent(pool: seq<BoundingBox>, overlaps: (BoundingBox, BoundingBox) -> bool)
    ensures Greedy(Greedy(pool, overlaps), overlaps) == Greedy(pool, overlaps)
  {
    GreedyDescending(pool, overlaps);
    GreedySpread(pool, overlaps);
    GreedyFixpoint(Greedy(pool, overlaps), overlaps);
  }

  // ---------------------------------------------------------------------
  // The stable descending sort of `sortedByDescending { it.cnf }`

  /** `x` placed in front of the first box of confidence at most its own. */
  function Insert(x: BoundingBox, s: seq<BoundingBox>): (r: seq<BoundingBox>)
    ensures multiset(r) == multiset(s) + multiset{x}
  {
    if s == [] || s[0].cnf <= x.cnf then [x] + s
    else
      assert s == [s[0]] + s[1..];
      [s[0]] + Insert(x, s[1..])
  }

  function SortDescending(s: seq<BoundingBox>): (r: seq<BoundingBox>)
    ensures multiset(r) == multiset(s)
    ensures Descending(r)
  {
    if s == [] then []
    else
      assert s == [s[0]] + s[1..];
      InsertDescending(s[0], SortDescending(s[1..]));
      Insert(s[0], SortDescending(s[1..]))
  }

  lemma {:induction false} InsertDescending(x: BoundingBox, s: seq<BoundingBox>)
    requires Descending(s)
    ensures Descending(Insert(x, s))
  {
    if s != [] && s[0].cnf > x.cnf {
      var r := Insert(x, s[1..]);
      InsertDescending(x, s[1..]);
      forall j | 0 <= j < |r| ensures r[j].cnf <= s[0].cnf {
        assert r[j] in multiset(r);
        if r[j] != x {
          assert r[j] in multiset(s[1..]);
          var i :| 0 <= i < |s[1..]| && s[1..][i] == r[j];
          assert s[i + 1] == r[j];
        }
      }
      assert Insert(x, s) == [s[0]] + r;
    }
  }

  /** The boxes of confidence exactly `v`, in order. */
  function WithConfidence(s: seq<BoundingBox>, v: real): (r: seq<BoundingBox>)
  {
    if s == [] then []
    else if s[0].cnf == v then [s[0]] + WithConfidence(s[1..], v)
    else WithConfidence(s[1..], v)
  }

  lemma {:induction false} InsertStable(x: BoundingBox, s: seq<BoundingBox>, v: real)
    ensures WithConfidence(Insert(x, s), v) ==
            (if x.cnf == v then [x] + WithConfidence(s, v) else WithConfidence(s, v))
  {
    if s == [] || s[0].cnf <= x.cnf {
      assert ([x] + s)[1..] == s;
      if x.cnf == v && s != [] && s[0].cnf == v {
      }
    } else {
      InsertStable(x, s[1..], v);
      assert ([s[0]] + Insert(x, s[1..]))[1..] == Insert(x, s[1..]);
    }
  }

  /** The sort is stable: boxes of equal confidence keep their input order. */
  lemma {:induction false} SortStable(s: seq<BoundingBox>, v: real)
    ensures WithConfidence(SortDescending(s), v) == WithConfidence(s, v)
  {
    if s != [] {
      SortStable(s[1..], v);
      InsertStable(s[0], SortDescending(s[1..]), v);
    }
  }

  /** A list already in descending order is left as it is. */
  lemma {:induction false} SortSorted(s: seq<BoundingBox>)
    requires Descending(s)
    ensures SortDescending(s) == s
  {
    if s != [] {
      SortSorted(s[1..]);
      assert s == [s[0]] + s[1..];
    }
  }

  // ---------------------------------------------------------------------
  // Subsequences, for the order of the sorted-list loop's output

  /** `a` is `b` with some boxes left out and the rest in their order. */
  predicate Subsequence(a: seq<BoundingBox>, b: seq<BoundingBox>)
    decreases |b|
  {
    if a == [] then true
    else if b == [] then false
    else if a[0] == b[0] then Subsequence(a[1..], b[1..])
    else Subsequence(a, b[1..])
  }

  lemma {:induction false} SubsequenceSkip(a: seq<BoundingBox>, x: BoundingBox, b: seq<BoundingBox>)
    requires Subsequence(a, b)
    ensures Subsequence(a, [x] + b)
    decreases |b|, 1
  {
    assert ([x] + b)[1..] == b;
    if a != [] && a[0] == x {
      SubsequenceDropHead(a, b);
    }
  }

  lemma {:induction false} SubsequenceDropHead(a: seq<BoundingBox>, b: seq<BoundingBox>)
    requires a != [] && Subsequence(a, b)
    ensures Subsequence(a[1..], b)
    decreases |b|, 0
  {
    assert b == [b[0]] + b[1..];
    if a[0] == b[0] {
      SubsequenceSkip(a[1..], b[0], b[1..]);
    } else {
      SubsequenceDropHead(a, b[1..]);
      SubsequenceSkip(a[1..], b[0], b[1..]);
    }
  }

  lemma {:induction false} SubsequenceTrans(a: seq<BoundingBox>, b: seq<BoundingBox>, c: seq<BoundingBox>)
    requires Subsequence(a, b) && Subsequence(b, c)
    ensures Subsequence(a, c)
    decreases |c|
  {
    if a != [] {
      assert b != [] && c != [];
      assert c == [c[0]] + c[1..];
      if b[0] == c[0] {
        if a[0] == b[0] {
          SubsequenceTrans(a[1..], b[1..], c[1..]);
        } else {
          SubsequenceTrans(a, b[1..], c[1..]);
          SubsequenceSkip(a, c[0], c[1..]);
        }
      } else {
        SubsequenceTrans(a, b, c[1..]);
        SubsequenceSkip(a, c[0], c[1..]);
      }
    }
  }

  lemma {:induction false} SurvivorsSubsequence(best: BoundingBox, rest: seq<BoundingBox>, overlaps: (BoundingBox, BoundingBox) -> bool)
    ensures Subsequence(Survivors(best, rest, overlaps), rest)
  {
    if rest != [] {
      var tail := Survivors(best, rest[1..], overlaps);
      SurvivorsSubsequence(best, rest[1..], overlaps);
      assert rest == [rest[0]] + rest[1..];
      if overlaps(best, rest[0]) {
        SubsequenceSkip(tail, rest[0], rest[1..]);
      } else {
        assert ([rest[0]] + tail)[1..] == tail;
      }
    }
  }

  /** The sorted-list loop selects boxes in the order the list holds them. */
  lemma {:induction false} GreedySortedSubsequence(s: seq<BoundingBox>, overlaps: (BoundingBox, BoundingBox) -> bool)
    ensures Subsequence(GreedySorted(s, overlaps), s)
    decreases |s|
  {
    if s != [] {
      var rest := Survivors(s[0], s[1..], overlaps);
      GreedySortedSubsequence(rest, overlaps);
      SurvivorsSubsequence(s[0], s[1..], overlaps);
      SubsequenceTrans(GreedySorted(rest, overlaps), rest, s[1..]);
      var sel := GreedySorted(s, overlaps);
      assert sel[1..] == GreedySorted(rest, overlaps);
    }
  }

  lemma {:induction false} WithConfidenceSubsequence(a: seq<BoundingBox>, b: seq<BoundingBox>, v: real)
    requires Subsequence(a, b)
    ensures Subsequence(WithConfidence(a, v), WithConfidence(b, v))
    decreases |b|
  {
    if a == [] {
    } else {
      if a[0] == b[0] {
        WithConfidenceSubsequence(a[1..], b[1..], v);
        if b[0].cnf == v {
          assert ([a[0]] + WithConfidence(a[1..], v))[1..] == WithConfidence(a[1..], v);
        }
      } else {
        WithConfidenceSubsequence(a, b[1..], v);
        if b[0].cnf == v {
          SubsequenceSkip(WithConfidence(a, v), b[0], WithConfidence(b[1..], v));
        }
      }
    }
  }
}
