/**
 * The segmented progress bars of the skills window
 * (`renderProgressSegments` in client/src/pages/Home.tsx): a bar of twenty
 * segments of which the first floor(percentage / 100 * 20) are drawn in the
 * filled colour and the rest in the empty colour. A segment is modelled by
 * whether it is filled; its markup and styling are not modelled.
 */
module Progress {

  /** `totalSegments` */
  const TotalSegments: nat := 20

  /** `Math.floor((percentage / 100) * totalSegments)` for an integer
      percentage: the largest k with k * 100 <= percentage * 20. */
  function FilledSegments(percentage: int): (k: int)
    ensures k * 100 <= percentage * TotalSegments < (k + 1) * 100
  {
    (percentage * TotalSegments) / 100
  }

  /** A percentage between 0 and 100 fills between none and all segments,
      0 fills none and 100 fills all. */
  lemma FilledWithinBar(percentage: int)
    requires 0 <= percentage <= 100
    ensures 0 <= FilledSegments(percentage) <= TotalSegments
    ensures percentage == 0 ==> FilledSegments(percentage) == 0
    ensures percentage == 100 ==> FilledSegments(percentage) == TotalSegments
  {
  }

  /** A larger percentage never fills fewer segments. */
  lemma FilledMonotone(p: int, q: int)
    requires p <= q
    ensures FilledSegments(p) <= FilledSegments(q)
  {
    var kp, kq := FilledSegments(p), FilledSegments(q);
    assert kp * 100 <= p * TotalSegments <= q * TotalSegments < (kq + 1) * 100;
  }

  /** The number of filled segments in a bar. */
  function CountFilled(segments: seq<bool>): (n: nat)
    ensures n <= |segments|
  {
    if segments == [] then 0
    else CountFilled(segments[..|segments| - 1]) + (if segments[|segments| - 1] then 1 else 0)
  }

  /** `k` clamped to the range 0..n. */
  function Clamp(k: int, n: nat): nat {
    if k < 0 then 0 else if k > n then n else k
  }

  /** A bar whose segments are filled exactly below index k shows
      k filled segments, clamped to the bar. */
  lemma {:induction false} CountFilledBelow(segments: seq<bool>, k: int)
    requires forall i :: 0 <= i < |segments| ==> (segments[i] <==> i < k)
    ensures CountFilled(segments) == Clamp(k, |segments|)
  {
    if segments != [] {
      var init := segments[..|segments| - 1];
      assert forall i :: 0 <= i < |init| ==> init[i] == segments[i];
      CountFilledBelow(init, k);
    }
  }

  /** `renderProgressSegments(percentage)`: the segments from left to right,
      `true` for a filled segment. */
  method RenderProgressSegments(percentage: int) returns (segments: seq<bool>)
    ensures |segments| == TotalSegments
    ensures forall i :: 0 <= i < |segments| ==> (segments[i] <==> i < FilledSegments(percentage))
    ensures CountFilled(segments) == Clamp(FilledSegments(percentage), TotalSegments)
  {
    var filled := FilledSegments(percentage);
    segments := [];
    var i := 0;
    while i < TotalSegments
      invariant 0 <= i <= TotalSegments && |segments| == i
      invariant forall j :: 0 <= j < i ==> (segments[j] <==> j < filled)
    {
      segments := segments + [i < filled];
      i := i + 1;
    }
    CountFilledBelow(segments, filled);
  }
}
