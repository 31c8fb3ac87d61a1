/**
 What a patch changed (scripts/firmware_execution/corpus.py): the changed ranges of an
 output image against its original, and the demand that no reviewed area changed outside
 a registered conversion span.
 */
module ChangedRanges {
  import opened Images
  import opened Intervals

  predicate Differs(original: seq<byte>, output: seq<byte>, p: nat)
    requires p < |original| == |output|
  {
    original[p] != output[p]
  }

  function Marks(original: seq<byte>, output: seq<byte>): (marks: seq<bool>)
    requires |original| == |output|
    ensures |marks| == |original| && forall p :: 0 <= p < |marks| ==> (marks[p] <==> original[p] != output[p])
  {
    seq(|original|, p requires 0 <= p < |original| => Differs(original, output, p))
  }

  /** `sum(a != b for ...)` over the first `n` positions. */
  function ChangedBytes(original: seq<byte>, output: seq<byte>, n: nat): nat
    requires n <= |original| == |output|
  {
    if n == 0 then 0 else ChangedBytes(original, output, n - 1) + if original[n - 1] != output[n - 1] then 1 else 0
  }

  /** The ranges of an output of the same length as its original. */
  method ChangedRanges(original: seq<byte>, output: seq<byte>) returns (ranges: seq<Range>)
    requires |original| == |output|
    ensures IsRuns(Marks(original, output), ranges)
    ensures Total(ranges) == ChangedBytes(original, output, |original|)
  {
    ranges := [];
    var start: Option<nat> := None;
    for i := 0 to |original|
      invariant Scanning(Marks(original, output), i, ranges, start)
    {
      if original[i] != output[i] && start.None? {
        start := Some(i);
      }
      if original[i] == output[i] && start.Some? {
        RunEnds(Marks(original, output), i, ranges, start.value);
        ranges := ranges + [Range(start.value, i)];
        start := None;
      }
    }
    if start.Some? {
      RunEnds(Marks(original, output), |original|, ranges, start.value);
      ranges := ranges + [Range(start.value, |original|)];
    }
    LengthsSumToCount(original, output, ranges);
  }

  lemma {:induction false} ChangedPositions(original: seq<byte>, output: seq<byte>, n: nat) returns (changed: set<int>)
    requires n <= |original| == |output|
    ensures |changed| == ChangedBytes(original, output, n)
    ensures forall p :: p in changed <==> 0 <= p < n && original[p] != output[p]
  {
    if n == 0 {
      changed := {};
    } else {
      var before := ChangedPositions(original, output, n - 1);
      changed := before;
      if original[n - 1] != output[n - 1] {
        changed := before + {n - 1};
      }
    }
  }

  /** The lengths of the maximal runs add up to the number of changed bytes. */
  lemma LengthsSumToCount(original: seq<byte>, output: seq<byte>, ranges: seq<Range>)
    requires |original| == |output| && IsRuns(Marks(original, output), ranges)
    ensures Total(ranges) == ChangedBytes(original, output, |original|)
  {
    var points := TotalCountsPoints(ranges);
    var changed := ChangedPositions(original, output, |original|);
    forall p ensures p in points <==> p in changed {
      assert Covers(ranges, p) <==> 0 <= p < |original| && Marks(original, output)[p];
    }
    SameElements(points, changed);
  }

  lemma SameElements<T>(points: set<T>, others: set<T>)
    requires forall p :: p in points <==> p in others
    ensures |points| == |others|
  {
    assert points == others;
  }

  /** Writing the reported ranges of the output over the original gives the output. */
  ghost function Patched(original: seq<byte>, output: seq<byte>, ranges: seq<Range>): (out: seq<byte>)
    requires |original| == |output|
    ensures |out| == |original|
  {
    seq(|original|, p requires 0 <= p < |original| => if Covers(ranges, p) then output[p] else original[p])
  }

  lemma RangesCarryThePatch(original: seq<byte>, output: seq<byte>, ranges: seq<Range>)
    requires |original| == |output| && IsRuns(Marks(original, output), ranges)
    ensures Patched(original, output, ranges) == output
  {
    forall p | 0 <= p < |original| ensures Patched(original, output, ranges)[p] == output[p] {
      if !Covers(ranges, p) {
        assert !Marks(original, output)[p];
      }
    }
  }

  // ---------------------------------------------------------------- reviewed areas

  /** The area lies in the image and every changed byte of it in a span. */
  ghost predicate Registered(original: seq<byte>, output: seq<byte>, area: Range, spans: seq<Range>)
    requires 0 <= area.lo && |original| == |output|
  {
    forall p: nat :: area.lo <= p < area.hi ==> p < |original| && (Differs(original, output, p) ==> Covers(spans, p))
  }

  /** Some span overlaps the area. */
  ghost predicate Touched(area: Range, spans: seq<Range>) {
    exists i :: 0 <= i < |spans| && spans[i].lo < area.hi && area.lo < spans[i].hi
  }

  method Inside(spans: seq<Range>, p: int) returns (inside: bool)
    ensures inside <==> Covers(spans, p)
  {
    for i := 0 to |spans|
      invariant forall k :: 0 <= k < i ==> !(spans[k].lo <= p < spans[k].hi)
    {
      if spans[i].lo <= p < spans[i].hi {
        return true;
      }
    }
    inside := false;
  }

  /** One area: None when it reaches past the image, which is an index error in the program. */
  method UnregisteredBytes(original: seq<byte>, output: seq<byte>, area: Range, spans: seq<Range>)
    returns (unregistered: Option<seq<nat>>)
    requires |original| == |output| && 0 <= area.lo <= area.hi
    ensures unregistered.None? <==> area.lo < area.hi && |original| < area.hi
    ensures unregistered.Some? ==> forall p: nat :: p in unregistered.value <==>
              area.lo <= p < area.hi && Differs(original, output, p) && !Covers(spans, p)
    ensures unregistered == Some([]) <==> Registered(original, output, area, spans)
  {
    var found: seq<nat> := [];
    for p: nat := area.lo to area.hi
      invariant p == area.lo || p <= |original|
      invariant forall q: nat :: q in found <==> area.lo <= q < p && Differs(original, output, q) && !Covers(spans, q)
    {
      var inside := Inside(spans, p);
      if |original| <= p {
        return None;
      }
      if original[p] != output[p] && !inside {
        found := found + [p];
      }
    }
    if found != [] {
      assert found[0] in found;
    }
    unregistered := Some(found);
  }

  /** All areas: the first one with an unregistered byte, or past the image, stops the review. */
  method ReviewAreas(original: seq<byte>, output: seq<byte>, areas: seq<Range>, spans: seq<Range>)
    returns (passed: bool)
    requires |original| == |output| && forall k :: 0 <= k < |areas| ==> 0 <= areas[k].lo <= areas[k].hi
    ensures passed <==> forall k :: 0 <= k < |areas| ==> Registered(original, output, areas[k], spans)
  {
    for k := 0 to |areas|
      invariant forall j :: 0 <= j < k ==> Registered(original, output, areas[j], spans)
    {
      var unregistered := UnregisteredBytes(original, output, areas[k], spans);
      if unregistered != Some([]) {
        return false;
      }
    }
    passed := true;
  }

  lemma CoveredPointTouches(area: Range, spans: seq<Range>, p: int)
    ensures Covers(spans, p) && area.lo <= p < area.hi ==> Touched(area, spans)
  {
    if Covers(spans, p) && area.lo <= p < area.hi {
      var i :| 0 <= i < |spans| && spans[i].lo <= p < spans[i].hi;
      assert spans[i].lo < area.hi && area.lo < spans[i].hi;
    }
  }

  /** A reviewed area that no span touches is byte for byte the original. */
  lemma UntouchedAreaIsOriginal(original: seq<byte>, output: seq<byte>, area: Range, spans: seq<Range>)
    requires |original| == |output| && 0 <= area.lo <= area.hi
    requires Registered(original, output, area, spans) && !Touched(area, spans)
    ensures Slice(output, area.lo, area.hi) == Slice(original, area.lo, area.hi)
  {
    forall i | 0 <= i < |Slice(original, area.lo, area.hi)|
      ensures Slice(original, area.lo, area.hi)[i] == Slice(output, area.lo, area.hi)[i]
    {
      CoveredPointTouches(area, spans, area.lo + i);
      assert !Differs(original, output, area.lo + i);
    }
  }

  /** After a passed review, what the report lists inside a reviewed area lies in registered spans. */
  lemma ReportedChangesAreRegistered(original: seq<byte>, output: seq<byte>, ranges: seq<Range>, area: Range,
                                     spans: seq<Range>, p: int)
    requires |original| == |output| && 0 <= area.lo <= area.hi
    requires IsRuns(Marks(original, output), ranges) && Registered(original, output, area, spans)
    requires Covers(ranges, p) && area.lo <= p < area.hi
    ensures Covers(spans, p)
  {
    assert Marks(original, output)[p];
    assert Differs(original, output, p);
  }
}
