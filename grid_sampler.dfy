/** The point check that runs before a grid is sampled from an image, and the process-wide
    registry of the sampler implementation. Each coordinate of `points` stands for its
    integer truncation (Java's `(int)` cast of the float); every value the check writes is
    integral, so the truncation is all the check reads or writes. */
module GridSampling {
  import opened Base

  /** A truncated coordinate lies more than one pixel off a side of `limit` pixels. */
  predicate FarOff(v: int, limit: int)
  {
    v < -1 || v > limit
  }

  /** A coordinate exactly one pixel off either edge. */
  predicate NeedsNudge(v: int, limit: int)
  {
    v == -1 || v == limit
  }

  /** The coordinate moved back onto the image when it lies one pixel off an edge. */
  function Nudge(v: int, limit: int): (n: int)
    ensures !NeedsNudge(v, limit) ==> n == v
    ensures v == -1 ==> n == 0
    ensures v == limit && limit != -1 ==> n == limit - 1
  {
    if v == -1 then 0 else if v == limit then limit - 1 else v
  }

  /** A point array in `x1, y1, ..., xn, yn` form. */
  predicate Paired(points: seq<int>)
  {
    |points| % 2 == 0
  }

  /** The pair at `offset` lies on a `width` by `height` image. */
  predicate InImage(points: seq<int>, offset: nat, width: int, height: int)
    requires offset + 1 < |points|
  {
    0 <= points[offset] < width && 0 <= points[offset + 1] < height
  }

  /** The pair at `offset` raises the "point outside image" error. */
  predicate PairFarOff(points: seq<int>, offset: nat, width: int, height: int)
    requires offset + 1 < |points|
  {
    FarOff(points[offset], width) || FarOff(points[offset + 1], height)
  }

  /** Whether visiting the pair at `offset` changes it, which lets the scan go on. */
  predicate PairNudged(points: seq<int>, offset: nat, width: int, height: int)
    requires offset + 1 < |points|
  {
    NeedsNudge(points[offset], width) || NeedsNudge(points[offset + 1], height)
  }

  /** The points after the pair at `offset` is nudged. */
  function NudgePair(points: seq<int>, offset: nat, width: int, height: int): (r: seq<int>)
    requires offset + 1 < |points|
    ensures |r| == |points|
    ensures forall k :: 0 <= k < |points| && k != offset && k != offset + 1 ==> r[k] == points[k]
    ensures r[offset] == Nudge(points[offset], width) && r[offset + 1] == Nudge(points[offset + 1], height)
  {
    points[offset := Nudge(points[offset], width)][offset + 1 := Nudge(points[offset + 1], height)]
  }

  /** The array after a scan and whether the scan finished without the error (the array
      keeps whatever was nudged before the error). */
  datatype Checked = Checked(points: seq<int>, ok: bool)

  /** The forward scan from the pair at `offset`. */
  function Forward(points: seq<int>, offset: nat, width: int, height: int): (r: Checked)
    requires Paired(points) && offset % 2 == 0
    ensures |r.points| == |points|
    decreases |points| - offset
  {
    if offset >= |points| then Checked(points, true)
    else if PairFarOff(points, offset, width, height) then Checked(points, false)
    else
      var next := NudgePair(points, offset, width, height);
      if PairNudged(points, offset, width, height) then Forward(next, offset + 2, width, height)
      else Checked(next, true)
  }

  /** The backward scan from the pair at `offset` down to the first pair. */
  function Backward(points: seq<int>, offset: int, width: int, height: int): (r: Checked)
    requires Paired(points) && offset % 2 == 0 && offset < |points|
    ensures |r.points| == |points|
    decreases offset + 2
  {
    if offset < 0 then Checked(points, true)
    else if PairFarOff(points, offset, width, height) then Checked(points, false)
    else
      var next := NudgePair(points, offset, width, height);
      if PairNudged(points, offset, width, height) then Backward(next, offset - 2, width, height)
      else Checked(next, true)
  }

  /** The whole check: the forward scan from the first pair, then the backward scan from the
      last pair. */
  function CheckAndNudge(points: seq<int>, width: int, height: int): (r: Checked)
    requires Paired(points)
    ensures |r.points| == |points|
  {
    var f := Forward(points, 0, width, height);
    if !f.ok then f else Backward(f.points, |points| - 2, width, height)
  }

  /** A pair that is not far off is on the image once nudged. */
  lemma NudgePairInImage(points: seq<int>, offset: nat, width: int, height: int)
    requires offset + 1 < |points| && width >= 1 && height >= 1
    requires !PairFarOff(points, offset, width, height)
    ensures InImage(NudgePair(points, offset, width, height), offset, width, height)
  {
  }

  /** The index just past the last pair the forward scan visits. */
  function ForwardStop(points: seq<int>, offset: nat, width: int, height: int): (stop: nat)
    requires Paired(points) && offset % 2 == 0
    ensures offset <= stop && stop % 2 == 0
    ensures offset < |points| ==> stop <= |points|
    decreases |points| - offset
  {
    if offset >= |points| then offset
    else if PairFarOff(points, offset, width, height) then offset + 2
    else if PairNudged(points, offset, width, height) then
      ForwardStop(NudgePair(points, offset, width, height), offset + 2, width, height)
    else offset + 2
  }

  /** The forward scan from `offset` changes no pair before `offset` and none from its stop on. */
  lemma {:induction false} ForwardFrame(points: seq<int>, offset: nat, width: int, height: int)
    requires Paired(points) && offset % 2 == 0
    ensures var r, stop := Forward(points, offset, width, height), ForwardStop(points, offset, width, height);
      forall k :: 0 <= k < |points| && (k < offset || stop <= k) ==> r.points[k] == points[k]
    decreases |points| - offset
  {
    if offset < |points| && !PairFarOff(points, offset, width, height) && PairNudged(points, offset, width, height) {
      ForwardFrame(NudgePair(points, offset, width, height), offset + 2, width, height);
    }
  }

  /** The forward scan from `offset` goes on past a pair exactly when that pair needed a
      nudge: every pair before the last one it visits needed one, the last one needed none
      unless the scan ran off the end, and it fails exactly when that last pair is far off. */
  lemma {:induction false} ForwardSteps(points: seq<int>, offset: nat, width: int, height: int)
    requires Paired(points) && offset % 2 == 0 && offset < |points|
    ensures var r, stop := Forward(points, offset, width, height), ForwardStop(points, offset, width, height);
      && (forall k :: offset <= k < stop - 2 && k % 2 == 0 ==> PairNudged(points, k, width, height))
      && (r.ok && stop < |points| ==> !PairNudged(points, stop - 2, width, height))
      && (!r.ok <==> PairFarOff(points, stop - 2, width, height))
    decreases |points| - offset
  {
    var next := NudgePair(points, offset, width, height);
    if !PairFarOff(points, offset, width, height) && PairNudged(points, offset, width, height) && offset + 2 < |points| {
      ForwardSteps(next, offset + 2, width, height);
      var stop := ForwardStop(next, offset + 2, width, height);
      forall k | offset <= k < stop - 2 && k % 2 == 0
        ensures PairNudged(points, k, width, height)
      {
        if k > offset {
          assert PairNudged(next, k, width, height);
          assert next[k] == points[k] && next[k + 1] == points[k + 1];
        }
      }
      assert next[stop - 2] == points[stop - 2] && next[stop - 1] == points[stop - 1];
    }
  }

  /** When the forward scan from `offset` succeeds, every pair it visited lies on the image. */
  lemma {:induction false} ForwardInImage(points: seq<int>, offset: nat, width: int, height: int)
    requires Paired(points) && offset % 2 == 0 && width >= 1 && height >= 1
    ensures var r, stop := Forward(points, offset, width, height), ForwardStop(points, offset, width, height);
      r.ok ==> forall k :: offset <= k < stop && k % 2 == 0 ==> InImage(r.points, k, width, height)
    decreases |points| - offset
  {
    if offset < |points| && !PairFarOff(points, offset, width, height) {
      var next := NudgePair(points, offset, width, height);
      NudgePairInImage(points, offset, width, height);
      if PairNudged(points, offset, width, height) {
        ForwardInImage(next, offset + 2, width, height);
        ForwardFrame(next, offset + 2, width, height);
        var r := Forward(next, offset + 2, width, height);
        assert r.points[offset] == next[offset] && r.points[offset + 1] == next[offset + 1];
      }
    }
  }

  /** The index of the last pair the backward scan visits. */
  function BackwardStop(points: seq<int>, offset: int, width: int, height: int): (stop: int)
    requires Paired(points) && offset % 2 == 0 && offset < |points|
    ensures stop <= offset && stop % 2 == 0
    ensures offset >= 0 ==> stop >= -2
    decreases offset + 2
  {
    if offset < 0 then offset
    else if PairFarOff(points, offset, width, height) then offset
    else if PairNudged(points, offset, width, height) then
      BackwardStop(NudgePair(points, offset, width, height), offset - 2, width, height)
    else offset
  }

  /** The backward scan from `offset` changes no pair after `offset` and none before its stop. */
  lemma {:induction false} BackwardFrame(points: seq<int>, offset: int, width: int, height: int)
    requires Paired(points) && offset % 2 == 0 && offset < |points|
    ensures var r, stop := Backward(points, offset, width, height), BackwardStop(points, offset, width, height);
      forall k :: 0 <= k < |points| && (k < stop || offset + 2 <= k) ==> r.points[k] == points[k]
    decreases offset + 2
  {
    if offset >= 0 && !PairFarOff(points, offset, width, height) && PairNudged(points, offset, width, height) {
      BackwardFrame(NudgePair(points, offset, width, height), offset - 2, width, height);
    }
  }

  /** The mirror image of ForwardSteps: the backward scan from `offset` stops at `stop` =
      BackwardStop, or at -2 when it ran past the first pair. */
  lemma {:induction false} BackwardSteps(points: seq<int>, offset: int, width: int, height: int)
    requires Paired(points) && offset % 2 == 0 && 0 <= offset < |points|
    ensures var r, stop := Backward(points, offset, width, height), BackwardStop(points, offset, width, height);
      && (forall k :: stop + 2 <= k <= offset && k % 2 == 0 ==> PairNudged(points, k, width, height))
      && (r.ok && stop >= 0 ==> !PairNudged(points, stop, width, height))
      && (!r.ok <==> stop >= 0 && PairFarOff(points, stop, width, height))
    decreases offset
  {
    var next := NudgePair(points, offset, width, height);
    if !PairFarOff(points, offset, width, height) && PairNudged(points, offset, width, height) && offset >= 2 {
      BackwardSteps(next, offset - 2, width, height);
      var stop := BackwardStop(next, offset - 2, width, height);
      forall k | stop + 2 <= k <= offset && k % 2 == 0
        ensures PairNudged(points, k, width, height)
      {
        if k < offset {
          assert PairNudged(next, k, width, height);
          assert next[k] == points[k] && next[k + 1] == points[k + 1];
        }
      }
      if stop >= 0 {
        assert next[stop] == points[stop] && next[stop + 1] == points[stop + 1];
      }
    }
  }

  /** When the backward scan from `offset` succeeds, every pair it visited lies on the image. */
  lemma {:induction false} BackwardInImage(points: seq<int>, offset: int, width: int, height: int)
    requires Paired(points) && offset % 2 == 0 && offset < |points| && width >= 1 && height >= 1
    ensures var r, stop := Backward(points, offset, width, height), BackwardStop(points, offset, width, height);
      r.ok ==> forall k :: stop <= k <= offset && 0 <= k && k % 2 == 0 ==> InImage(r.points, k, width, height)
    decreases offset + 2
  {
    if offset >= 0 && !PairFarOff(points, offset, width, height) {
      var next := NudgePair(points, offset, width, height);
      NudgePairInImage(points, offset, width, height);
      if PairNudged(points, offset, width, height) {
        BackwardInImage(next, offset - 2, width, height);
        BackwardFrame(next, offset - 2, width, height);
        var r := Backward(next, offset - 2, width, height);
        assert r.points[offset] == next[offset] && r.points[offset + 1] == next[offset + 1];
      }
    }
  }

  /** A pair already on the image needs no nudge and is not far off. */
  lemma InImageSettled(points: seq<int>, offset: nat, width: int, height: int)
    requires offset + 1 < |points| && InImage(points, offset, width, height)
    ensures !PairFarOff(points, offset, width, height) && !PairNudged(points, offset, width, height)
  {
  }

  /** The backward scan from `offset` stops at the latest at a pair that already lies on the image. */
  lemma {:induction false} BackwardStopsAtSettled(points: seq<int>, offset: int, j: nat, width: int, height: int)
    requires Paired(points) && offset % 2 == 0 && offset < |points|
    requires j <= offset && j % 2 == 0 && InImage(points, j, width, height)
    ensures BackwardStop(points, offset, width, height) >= j
    decreases offset
  {
    InImageSettled(points, j, width, height);
    if offset > j && !PairFarOff(points, offset, width, height) && PairNudged(points, offset, width, height) {
      var next := NudgePair(points, offset, width, height);
      assert next[j] == points[j] && next[j + 1] == points[j + 1];
      BackwardStopsAtSettled(next, offset - 2, j, width, height);
    }
  }

  /** The backward scan never goes past the last pair the forward scan visited, because that
      pair is on the image once the forward scan succeeds. */
  lemma ScansMeet(points: seq<int>, width: int, height: int)
    requires Paired(points) && |points| > 0 && width >= 1 && height >= 1
    requires Forward(points, 0, width, height).ok
    ensures var f := Forward(points, 0, width, height);
      ForwardStop(points, 0, width, height) <= BackwardStop(f.points, |points| - 2, width, height) + 2
  {
    var f := Forward(points, 0, width, height);
    var front := ForwardStop(points, 0, width, height);
    ForwardInImage(points, 0, width, height);
    assert InImage(f.points, front - 2, width, height);
    BackwardStopsAtSettled(f.points, |points| - 2, front - 2, width, height);
  }

  /** The whole check fails exactly when the forward scan meets a far-off pair, or the
      backward scan does; a failing forward scan is the whole result. */
  lemma CheckFails(points: seq<int>, width: int, height: int)
    requires Paired(points) && |points| > 0
    ensures var r, f := CheckAndNudge(points, width, height), Forward(points, 0, width, height);
      var front := ForwardStop(points, 0, width, height);
      var back := BackwardStop(f.points, |points| - 2, width, height);
      && (!f.ok ==> r == f && PairFarOff(points, front - 2, width, height))
      && (f.ok ==> (!r.ok <==> back >= 0 && PairFarOff(f.points, back, width, height)))
  {
    ForwardSteps(points, 0, width, height);
    var f := Forward(points, 0, width, height);
    if f.ok {
      BackwardSteps(f.points, |points| - 2, width, height);
    }
  }

  /** One pair the successful forward scan from the first pair visited lies on the image. */
  lemma ForwardPairInImage(points: seq<int>, width: int, height: int, k: nat)
    requires Paired(points) && width >= 1 && height >= 1
    requires Forward(points, 0, width, height).ok
    requires k < ForwardStop(points, 0, width, height) && k % 2 == 0
    ensures InImage(Forward(points, 0, width, height).points, k, width, height)
  {
    ForwardInImage(points, 0, width, height);
  }

  /** On success every pair the forward scan visited lies on the image at the end. */
  lemma CheckFrontInImage(points: seq<int>, width: int, height: int)
    requires Paired(points) && |points| > 0 && width >= 1 && height >= 1
    ensures var r := CheckAndNudge(points, width, height);
      r.ok ==> forall k :: 0 <= k < ForwardStop(points, 0, width, height) && k % 2 == 0 ==> InImage(r.points, k, width, height)
  {
    var r := CheckAndNudge(points, width, height);
    var f := Forward(points, 0, width, height);
    if f.ok && r.ok {
      var n := |points|;
      var front := ForwardStop(points, 0, width, height);
      var back := BackwardStop(f.points, n - 2, width, height);
      assert r == Backward(f.points, n - 2, width, height);
      BackwardInImage(f.points, n - 2, width, height);
      BackwardFrame(f.points, n - 2, width, height);
      forall k | 0 <= k < front && k % 2 == 0
        ensures InImage(r.points, k, width, height)
      {
        if k < back {
          ForwardPairInImage(points, width, height, k);
          assert r.points[k] == f.points[k] && r.points[k + 1] == f.points[k + 1];
        } else {
          assert k <= n - 2;
        }
      }
    }
  }

  /** On success every pair the backward scan visited lies on the image at the end. */
  lemma CheckBackInImage(points: seq<int>, width: int, height: int)
    requires Paired(points) && |points| > 0 && width >= 1 && height >= 1
    ensures var r, f := CheckAndNudge(points, width, height), Forward(points, 0, width, height);
      var back := BackwardStop(f.points, |points| - 2, width, height);
      r.ok ==> forall k :: back <= k < |points| && 0 <= k && k % 2 == 0 ==> InImage(r.points, k, width, height)
  {
    var f := Forward(points, 0, width, height);
    if f.ok {
      BackwardInImage(f.points, |points| - 2, width, height);
    }
  }

  /** On success the pairs between the two scans' stops are exactly as they came in, and the
      stops do not cross. */
  lemma CheckMiddleUnchanged(points: seq<int>, width: int, height: int)
    requires Paired(points) && |points| > 0 && width >= 1 && height >= 1
    ensures var r, f := CheckAndNudge(points, width, height), Forward(points, 0, width, height);
      var front := ForwardStop(points, 0, width, height);
      var back := BackwardStop(f.points, |points| - 2, width, height);
      r.ok ==> front <= back + 2 && forall k :: front <= k < back ==> r.points[k] == points[k]
  {
    var f := Forward(points, 0, width, height);
    if f.ok {
      ScansMeet(points, width, height);
      ForwardFrame(points, 0, width, height);
      BackwardFrame(f.points, |points| - 2, width, height);
    }
  }

  /** The body both scans share: nudges the pair at `offset` and says whether it moved. */
  method NudgeAt(width: int, height: int, points: array<int>, offset: nat) returns (nudged: bool)
    requires offset + 1 < points.Length
    modifies points
    ensures points[..] == NudgePair(old(points[..]), offset, width, height)
    ensures nudged == PairNudged(old(points[..]), offset, width, height)
  {
    var x := points[offset];
    var y := points[offset + 1];
    nudged := false;
    if x == -1 {
      points[offset] := 0;
      nudged := true;
    } else if x == width {
      points[offset] := width - 1;
      nudged := true;
    }
    if y == -1 {
      points[offset + 1] := 0;
      nudged := true;
    } else if y == height {
      points[offset + 1] := height - 1;
      nudged := true;
    }
  }

  /** One step of the forward scan at a pair that exists. */
  lemma ForwardAt(points: seq<int>, offset: nat, width: int, height: int)
    requires Paired(points) && offset % 2 == 0 && offset < |points|
    ensures PairFarOff(points, offset, width, height) ==> Forward(points, offset, width, height) == Checked(points, false)
    ensures !PairFarOff(points, offset, width, height) && PairNudged(points, offset, width, height) ==>
      Forward(points, offset, width, height) == Forward(NudgePair(points, offset, width, height), offset + 2, width, height)
    ensures !PairFarOff(points, offset, width, height) && !PairNudged(points, offset, width, height) ==>
      Forward(points, offset, width, height) == Checked(NudgePair(points, offset, width, height), true)
  {
  }

  /** One step of the backward scan at a pair that exists. */
  lemma BackwardAt(points: seq<int>, offset: nat, width: int, height: int)
    requires Paired(points) && offset % 2 == 0 && offset < |points|
    ensures PairFarOff(points, offset, width, height) ==> Backward(points, offset, width, height) == Checked(points, false)
    ensures !PairFarOff(points, offset, width, height) && PairNudged(points, offset, width, height) ==>
      Backward(points, offset, width, height) == Backward(NudgePair(points, offset, width, height), offset - 2, width, height)
    ensures !PairFarOff(points, offset, width, height) && !PairNudged(points, offset, width, height) ==>
      Backward(points, offset, width, height) == Checked(NudgePair(points, offset, width, height), true)
  {
  }

  /** The first loop of `checkAndNudgePoints`: the array ends as the forward scan leaves it,
      and `ok` is false exactly when the scan reaches a far-off pair. */
  method ScanForward(width: int, height: int, points: array<int>) returns (ok: bool)
    requires Paired(points[..])
    modifies points
    ensures Forward(old(points[..]), 0, width, height) == Checked(points[..], ok)
  {
    ghost var start := points[..];
    var nudged := true;
    var offset := 0;
    while offset < points.Length && nudged
      invariant 0 <= offset <= points.Length && offset % 2 == 0 && Paired(points[..])
      invariant nudged ==> Forward(points[..], offset, width, height) == Forward(start, 0, width, height)
      invariant !nudged ==> Forward(start, 0, width, height) == Checked(points[..], true)
    {
      ForwardAt(points[..], offset, width, height);
      var x := points[offset];
      var y := points[offset + 1];
      if x < -1 || x > width || y < -1 || y > height {
        return false;
      }
      nudged := NudgeAt(width, height, points, offset);
      offset := offset + 2;
    }
    ok := true;
  }

  /** The second loop of `checkAndNudgePoints`, from the last pair down to the first. */
  method ScanBackward(width: int, height: int, points: array<int>) returns (ok: bool)
    requires Paired(points[..])
    modifies points
    ensures Backward(old(points[..]), points.Length - 2, width, height) == Checked(points[..], ok)
  {
    ghost var start := points[..];
    var nudged := true;
    var offset := points.Length - 2;
    while offset >= 0 && nudged
      invariant -2 <= offset < points.Length && offset % 2 == 0 && Paired(points[..])
      invariant nudged ==> Backward(points[..], offset, width, height) == Backward(start, points.Length - 2, width, height)
      invariant !nudged ==> Backward(start, points.Length - 2, width, height) == Checked(points[..], true)
    {
      BackwardAt(points[..], offset, width, height);
      var x := points[offset];
      var y := points[offset + 1];
      if x < -1 || x > width || y < -1 || y > height {
        return false;
      }
      nudged := NudgeAt(width, height, points, offset);
      offset := offset - 2;
    }
    ok := true;
  }

  /** `checkAndNudgePoints`: the array ends as the model's scans leave it (also when the
      error is raised part way), and the error is raised exactly when the model fails. */
  method CheckAndNudgePoints(width: int, height: int, points: array<int>) returns (r: Outcome<()>)
    requires Paired(points[..])
    modifies points
    ensures var c := CheckAndNudge(old(points[..]), width, height);
      points[..] == c.points && (r.Ok? <==> c.ok)
  {
    var ok := ScanForward(width, height, points);
    if !ok {
      return Fail("point outside image");
    }
    ok := ScanBackward(width, height, points);
    if !ok {
      return Fail("point outside image");
    }
    r := Ok(());
  }

  /** A sampler implementation; the sampling itself is not part of this model. */
  datatype Sampler = DefaultGridSampler | PlatformSampler(id: nat)

  /** The process-wide holder of the sampler implementation in use. */
  class SamplerRegistry {
    var gridSampler: Sampler

    constructor ()
      ensures gridSampler == DefaultGridSampler
    {
      gridSampler := DefaultGridSampler;
    }

    /** `setGridSampler`: a null sampler (None) is refused and nothing changes. */
    method SetGridSampler(newGridSampler: Option<Sampler>) returns (r: Outcome<()>)
      modifies this
      ensures newGridSampler.None? ==> r.Fail? && gridSampler == old(gridSampler)
      ensures newGridSampler.Some? ==> r == Ok(()) && gridSampler == newGridSampler.value
    {
      if newGridSampler.None? {
        return Fail("IllegalArgumentException");
      }
      gridSampler := newGridSampler.value;
      r := Ok(());
    }

    /** `getInstance`: the sampler installed last. */
    function GetInstance(): (s: Sampler)
      reads this
      ensures s == gridSampler
    {
      gridSampler
    }
  }
}
