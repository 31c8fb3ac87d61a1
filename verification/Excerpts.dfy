/**
 Witness excerpts of an image (scripts/audit-mtk-speed-policy.py): the bytes that were
 executed or referenced, merged into parts, and the image rebuilt from the parts over
 a fill of 0xff.
 */
module Excerpts {
  import opened Images
  import opened Intervals

  const IMAGE := 0x20_0000

  datatype Part = Part(offset: nat, blob: seq<byte>)

  // ---------------------------------------------------------------- which bytes are wanted

  predicate IsLiteralLoad(op: int) {
    op / 0x800 == 9
  }

  /** The pools of the literal loads among the first `n` halfwords from `entry`. */
  function ScannedPools(data: seq<byte>, entry: nat, n: nat): seq<Range> {
    if n == 0 then []
    else
      var at := entry + 2 * (n - 1);
      ScannedPools(data, entry, n - 1) +
      if IsLiteralLoad(Half(data, at)) then [Pool(PoolAddress(at, Half(data, at)))] else []
  }

  function Pool(a: int): Range {
    Range(a, a + 4)
  }

  function PoolRanges(pools: seq<nat>): seq<Range> {
    seq(|pools|, i requires 0 <= i < |pools| => Pool(pools[i]))
  }

  /** How many halfwords the scan of `length` bytes reads. */
  function Halfwords(length: nat): nat {
    (length + 1) / 2
  }

  /** Everything the excerpt has to hold: the entry window, executed instructions and pools. */
  function Wanted(data: seq<byte>, entry: nat, length: nat, executed: seq<Range>, pools: seq<nat>): seq<Range> {
    [Range(entry, entry + length)] + executed + PoolRanges(pools) + ScannedPools(data, entry, Halfwords(length))
  }

  ghost predicate InPools(pools: seq<nat>, p: int) {
    exists i :: 0 <= i < |pools| && pools[i] <= p < pools[i] + 4
  }

  /** Some literal load among the halfwords from `entry` reads the pool entry that holds `p`. */
  ghost predicate Referenced(data: seq<byte>, entry: nat, n: nat, p: int) {
    exists k: nat :: k < n && LoadsFrom(data, entry + 2 * k, p)
  }

  predicate LoadsFrom(data: seq<byte>, at: nat, p: int) {
    var op := Half(data, at);
    IsLiteralLoad(op) && PoolAddress(at, op) <= p < PoolAddress(at, op) + 4
  }

  lemma ConcatCovers(rs: seq<Range>, ss: seq<Range>, p: int)
    ensures Covers(rs + ss, p) <==> Covers(rs, p) || Covers(ss, p)
  {
    ConcatHolds(rs, ss, p, p + 1);
    CoversIsHolds(rs, p);
    CoversIsHolds(ss, p);
    CoversIsHolds(rs + ss, p);
  }

  lemma CoversIsHolds(rs: seq<Range>, p: int)
    ensures Covers(rs, p) <==> Holds(rs, p, p + 1)
  {
    if Covers(rs, p) {
      var i :| 0 <= i < |rs| && rs[i].lo <= p < rs[i].hi;
      assert rs[i].lo <= p && p + 1 <= rs[i].hi;
    }
    if Holds(rs, p, p + 1) {
      var i :| 0 <= i < |rs| && rs[i].lo <= p && p + 1 <= rs[i].hi;
      assert rs[i].lo <= p < rs[i].hi;
    }
  }

  lemma OneRangeCovers(r: Range, p: int)
    ensures Covers([r], p) <==> r.lo <= p < r.hi
  {
    if r.lo <= p < r.hi {
      assert [r][0].lo <= p < [r][0].hi;
    }
  }

  lemma {:induction false} ScannedPoolsCover(data: seq<byte>, entry: nat, n: nat, p: int)
    ensures Covers(ScannedPools(data, entry, n), p) <==> Referenced(data, entry, n, p)
  {
    if n > 0 {
      ScannedPoolsCover(data, entry, n - 1, p);
      var at := entry + 2 * (n - 1);
      var here := if IsLiteralLoad(Half(data, at)) then [Pool(PoolAddress(at, Half(data, at)))] else [];
      ConcatCovers(ScannedPools(data, entry, n - 1), here, p);
      OneRangeCovers(Pool(PoolAddress(at, Half(data, at))), p);
      assert Covers(here, p) <==> LoadsFrom(data, at, p);
      assert Referenced(data, entry, n, p) <==> Referenced(data, entry, n - 1, p) || LoadsFrom(data, at, p);
    }
  }

  lemma PoolRangesCover(pools: seq<nat>, p: int)
    ensures Covers(PoolRanges(pools), p) <==> InPools(pools, p)
  {
    if InPools(pools, p) {
      var i :| 0 <= i < |pools| && pools[i] <= p < pools[i] + 4;
      assert PoolRanges(pools)[i].lo <= p < PoolRanges(pools)[i].hi;
    }
    if Covers(PoolRanges(pools), p) {
      var i :| 0 <= i < |pools| && PoolRanges(pools)[i].lo <= p < PoolRanges(pools)[i].hi;
      assert pools[i] <= p < pools[i] + 4;
    }
  }

  /** A byte is wanted when it is in the window, was executed, or belongs to a pool that is read. */
  lemma WantedCovers(data: seq<byte>, entry: nat, length: nat, executed: seq<Range>, pools: seq<nat>, p: int)
    ensures Covers(Wanted(data, entry, length, executed, pools), p) <==>
            || entry <= p < entry + length
            || Covers(executed, p)
            || InPools(pools, p)
            || Referenced(data, entry, Halfwords(length), p)
  {
    var window, scanned := [Range(entry, entry + length)], ScannedPools(data, entry, Halfwords(length));
    ConcatCovers(window, executed, p);
    ConcatCovers(window + executed, PoolRanges(pools), p);
    ConcatCovers(window + executed + PoolRanges(pools), scanned, p);
    OneRangeCovers(Range(entry, entry + length), p);
    PoolRangesCover(pools, p);
    ScannedPoolsCover(data, entry, Halfwords(length), p);
  }

  ghost predicate AllProper(rs: seq<Range>) {
    forall i :: 0 <= i < |rs| ==> 0 <= rs[i].lo <= rs[i].hi
  }

  lemma {:induction false} ScannedPoolsAreProper(data: seq<byte>, entry: nat, n: nat)
    ensures AllProper(ScannedPools(data, entry, n))
  {
    if n > 0 {
      ScannedPoolsAreProper(data, entry, n - 1);
    }
  }

  lemma SortedKeepsCoverage(rs: seq<Range>, p: int)
    ensures Covers(Sorted(rs), p) <==> Covers(rs, p)
  {
    if Covers(rs, p) {
      var i :| 0 <= i < |rs| && rs[i].lo <= p < rs[i].hi;
      assert rs[i] in Sorted(rs);
    }
    if Covers(Sorted(rs), p) {
      var i :| 0 <= i < |Sorted(rs)| && Sorted(rs)[i].lo <= p < Sorted(rs)[i].hi;
      assert Sorted(rs)[i] in rs;
    }
  }

  // ---------------------------------------------------------------- the excerpt

  /** The ranges kept: separated, and covering exactly what is wanted. */
  ghost predicate IsExcerpt(wanted: seq<Range>, ranges: seq<Range>) {
    && Separated(ranges) && AllProper(ranges)
    && forall p :: Covers(ranges, p) <==> Covers(wanted, p)
  }

  lemma SortedIsProper(wanted: seq<Range>)
    requires AllProper(wanted)
    ensures AllProper(Sorted(wanted)) && NoneInverted(Sorted(wanted))
  {
    forall i | 0 <= i < |Sorted(wanted)| ensures 0 <= Sorted(wanted)[i].lo <= Sorted(wanted)[i].hi {
      assert Sorted(wanted)[i] in wanted;
    }
  }

  lemma {:induction false} MergedIsProper(sorted: seq<Range>)
    requires Ordered(sorted) && AllProper(sorted)
    ensures Separated(Merged(sorted)) && AllProper(Merged(sorted))
  {
    var merged := Merged(sorted);
    MergedAll(sorted);
    forall i | 0 <= i < |merged| ensures 0 <= merged[i].lo <= merged[i].hi {
      assert merged[i] in merged;
      var r :| r in sorted && r.lo == merged[i].lo;
    }
  }

  lemma MergedIsExcerpt(wanted: seq<Range>)
    requires AllProper(wanted)
    ensures IsExcerpt(wanted, Merged(Sorted(wanted)))
  {
    SortedIsProper(wanted);
    MergedIsProper(Sorted(wanted));
    MergedAll(Sorted(wanted));
    forall p ensures Covers(Merged(Sorted(wanted)), p) <==> Covers(wanted, p) {
      SortedKeepsCoverage(wanted, p);
    }
  }

  function PartsOf(data: seq<byte>, ranges: seq<Range>, n: nat): seq<Part>
    requires n <= |ranges| && AllProper(ranges)
  {
    seq(n, i requires 0 <= i < n => Part(ranges[i].lo, Slice(data, ranges[i].lo, ranges[i].hi)))
  }

  predicate ScanFits(data: seq<byte>, entry: nat, length: nat) {
    length > 0 ==> entry + 2 * Halfwords(length) <= |data|
  }

  /** None when the scan reads past the image, which is an error in the program. */
  method ScanPools(data: seq<byte>, entry: nat, length: nat) returns (scanned: Option<seq<Range>>)
    ensures scanned.Some? <==> ScanFits(data, entry, length)
    ensures scanned.Some? ==> scanned.value == ScannedPools(data, entry, Halfwords(length))
  {
    var found: seq<Range> := [];
    for n := 0 to Halfwords(length)
      invariant n > 0 ==> entry + 2 * n <= |data|
      invariant found == ScannedPools(data, entry, n)
    {
      var at := entry + 2 * n;
      if |data| < at + 2 {
        return None;
      }
      var op := Half(data, at);
      if IsLiteralLoad(op) {
        found := found + [Pool(PoolAddress(at, op))];
      }
    }
    scanned := Some(found);
  }

  lemma WantedIsProper(data: seq<byte>, entry: nat, length: nat, executed: seq<Range>, pools: seq<nat>)
    requires AllProper(executed)
    ensures AllProper(Wanted(data, entry, length, executed, pools))
  {
    ScannedPoolsAreProper(data, entry, Halfwords(length));
  }

  method Excerpt(data: seq<byte>, entry: nat, length: nat, executed: seq<Range>, pools: seq<nat>)
    returns (parts: Option<seq<Part>>, ghost ranges: seq<Range>)
    requires AllProper(executed)
    ensures parts.Some? <==> ScanFits(data, entry, length)
    ensures parts.Some? ==> IsExcerpt(Wanted(data, entry, length, executed, pools), ranges)
    ensures parts.Some? ==> parts.value == PartsOf(data, ranges, |ranges|)
  {
    ranges := [];
    var scanned := ScanPools(data, entry, length);
    if scanned.None? {
      return None, [];
    }
    var wanted := [Range(entry, entry + length)] + executed + PoolRanges(pools) + scanned.value;
    WantedIsProper(data, entry, length, executed, pools);
    MergedIsExcerpt(wanted);
    var merged := Merge(Sorted(wanted));
    ranges := merged;
    parts := Some(PartsOf(data, merged, |merged|));
  }

  // ---------------------------------------------------------------- the rebuilt image

  function Placed(image: seq<byte>, part: Part): seq<byte> {
    Assign(image, part.offset, part.offset + |part.blob|, part.blob)
  }

  /** The fill with the first `n` parts written over it. */
  function Rebuilt(parts: seq<Part>, n: nat): seq<byte>
    requires n <= |parts|
  {
    if n == 0 then seq(IMAGE, _ => 0xff) else Placed(Rebuilt(parts, n - 1), parts[n - 1])
  }

  method Rebuild(parts: seq<Part>) returns (image: seq<byte>)
    ensures image == Rebuilt(parts, |parts|)
  {
    image := seq(IMAGE, _ => 0xff);
    for n := 0 to |parts|
      invariant image == Rebuilt(parts, n)
    {
      image := Assign(image, parts[n].offset, parts[n].offset + |parts[n].blob|, parts[n].blob);
    }
  }

  /** Every kept byte of the original is back, everything else is fill. */
  ghost predicate Faithful(data: seq<byte>, ranges: seq<Range>, image: seq<byte>) {
    && (forall p :: 0 <= p < |data| && Covers(ranges, p) ==> p < |image| && image[p] == data[p])
    && forall p :: 0 <= p < |image| && !(p < |data| && Covers(ranges, p)) ==> image[p] == 0xff
  }

  /** Where the bytes that the part really carries end. */
  function PartEnd(data: seq<byte>, r: Range): int {
    Max(r.lo, Min(r.hi, |data|))
  }

  /** A part with bytes that starts past the fill would land in the wrong place. */
  predicate Misplaced(data: seq<byte>, r: Range) {
    IMAGE < r.lo < PartEnd(data, r)
  }

  predicate Placeable(data: seq<byte>, ranges: seq<Range>) {
    forall i :: 0 <= i < |ranges| ==> !Misplaced(data, ranges[i])
  }

  lemma PlacedPart(data: seq<byte>, r: Range, image: seq<byte>)
    requires 0 <= r.lo <= r.hi && IMAGE <= |image| && !Misplaced(data, r)
    ensures var placed := Placed(image, Part(r.lo, Slice(data, r.lo, r.hi)));
            && |placed| == (if r.lo < PartEnd(data, r) then Max(|image|, PartEnd(data, r)) else |image|)
            && forall p :: 0 <= p < |placed| ==>
                 placed[p] == if r.lo <= p < PartEnd(data, r) then data[p] else image[p]
  {
  }

  lemma {:induction false} PlaceableIsFaithful(data: seq<byte>, ranges: seq<Range>, n: nat)
    requires AllProper(ranges) && n <= |ranges| && Placeable(data, ranges[..n])
    ensures var image := Rebuilt(PartsOf(data, ranges, |ranges|), n);
            IMAGE <= |image| && Faithful(data, ranges[..n], image)
  {
    if n > 0 {
      var parts := PartsOf(data, ranges, |ranges|);
      var before := Rebuilt(parts, n - 1);
      var r := ranges[n - 1];
      assert forall i :: 0 <= i < n - 1 ==> ranges[..n - 1][i] == ranges[..n][i];
      PlaceableIsFaithful(data, ranges, n - 1);
      assert ranges[..n][n - 1] == r;
      PlacedPart(data, r, before);
      FaithfulStep(data, ranges, n, before, Placed(before, parts[n - 1]));
    }
  }

  lemma FaithfulStep(data: seq<byte>, ranges: seq<Range>, n: nat, before: seq<byte>, image: seq<byte>)
    requires AllProper(ranges) && 0 < n <= |ranges| && Faithful(data, ranges[..n - 1], before)
    requires var r := ranges[n - 1];
             && (r.lo < PartEnd(data, r) ==> r.lo <= |before|)
             && |image| == (if r.lo < PartEnd(data, r) then Max(|before|, PartEnd(data, r)) else |before|)
             && forall p :: 0 <= p < |image| ==>
                  image[p] == if r.lo <= p < PartEnd(data, r) then data[p] else before[p]
    ensures Faithful(data, ranges[..n], image)
  {
    forall p | 0 <= p < |data| && Covers(ranges[..n], p) ensures p < |image| && image[p] == data[p] {
      CoversOneMore(ranges, n, p);
    }
    forall p | 0 <= p < |image| && !(p < |data| && Covers(ranges[..n], p)) ensures image[p] == 0xff {
      CoversOneMore(ranges, n, p);
    }
  }

  /** The end of the furthest part among the first `n`, or of the fill. */
  function Top(data: seq<byte>, ranges: seq<Range>, n: nat): int
    requires n <= |ranges|
  {
    if n == 0 then IMAGE
    else if ranges[n - 1].lo < PartEnd(data, ranges[n - 1]) then
      Max(Top(data, ranges, n - 1), PartEnd(data, ranges[n - 1]))
    else Top(data, ranges, n - 1)
  }

  lemma {:induction false} TopIsCovered(data: seq<byte>, ranges: seq<Range>, n: nat)
    requires n <= |ranges| && IMAGE < Top(data, ranges, n)
    ensures Top(data, ranges, n) <= |data| && Covers(ranges, Top(data, ranges, n) - 1)
  {
    var r := ranges[n - 1];
    if r.lo < PartEnd(data, r) && PartEnd(data, r) == Top(data, ranges, n) {
      assert r.lo <= Top(data, ranges, n) - 1 < r.hi;
    } else {
      TopIsCovered(data, ranges, n - 1);
    }
  }

  /** Length of the image after the first `n` parts. */
  function Length(data: seq<byte>, ranges: seq<Range>, n: nat): int
    requires n <= |ranges|
  {
    if n == 0 then IMAGE
    else
      var before, r := Length(data, ranges, n - 1), ranges[n - 1];
      Max(before, Min(r.lo, before) + PartEnd(data, r) - r.lo)
  }

  lemma {:induction false} RebuiltLength(data: seq<byte>, ranges: seq<Range>, n: nat)
    requires AllProper(ranges) && n <= |ranges|
    ensures |Rebuilt(PartsOf(data, ranges, |ranges|), n)| == Length(data, ranges, n)
  {
    if n > 0 {
      RebuiltLength(data, ranges, n - 1);
      PlacedLength(Rebuilt(PartsOf(data, ranges, |ranges|), n - 1), PartsOf(data, ranges, |ranges|)[n - 1]);
    }
  }

  lemma PlacedLength(image: seq<byte>, part: Part)
    ensures |Placed(image, part)| == Max(|image|, Min(part.offset, |image|) + |part.blob|)
  {
  }

  lemma {:induction false} LengthReachesTop(data: seq<byte>, ranges: seq<Range>, n: nat)
    requires AllProper(ranges) && n <= |ranges|
    ensures Length(data, ranges, n) <= Top(data, ranges, n)
  {
    if n > 0 {
      LengthReachesTop(data, ranges, n - 1);
    }
  }

  lemma {:induction false} TopIsBefore(data: seq<byte>, ranges: seq<Range>, n: nat, k: nat)
    requires Separated(ranges) && AllProper(ranges) && k <= n < |ranges| && IMAGE < ranges[n].lo
    ensures Top(data, ranges, k) < ranges[n].lo
  {
    if k > 0 {
      TopIsBefore(data, ranges, n, k - 1);
    }
  }

  /** Once a part was misplaced the rebuilt image stays short of the furthest part. */
  lemma {:induction false} MisplacedIsShort(data: seq<byte>, ranges: seq<Range>, n: nat, bad: nat)
    requires Separated(ranges) && AllProper(ranges) && bad < n <= |ranges| && Misplaced(data, ranges[bad])
    ensures IMAGE < Top(data, ranges, n) && Length(data, ranges, n) < Top(data, ranges, n)
  {
    if bad < n - 1 {
      MisplacedIsShort(data, ranges, n - 1, bad);
      assert ranges[bad].hi < ranges[n - 1].lo;
    }
    LengthReachesTop(data, ranges, n - 1);
    if IMAGE < ranges[n - 1].lo {
      TopIsBefore(data, ranges, n - 1, n - 1);
    }
  }

  /** Rebuilding gives every kept byte back, and fill elsewhere, exactly when no part starts past the fill. */
  lemma {:induction false} RebuildIsFaithfulIff(data: seq<byte>, ranges: seq<Range>)
    requires Separated(ranges) && AllProper(ranges)
    ensures Faithful(data, ranges, Rebuilt(PartsOf(data, ranges, |ranges|), |ranges|)) <==> Placeable(data, ranges)
  {
    assert ranges[..|ranges|] == ranges;
    if Placeable(data, ranges) {
      PlaceableIsFaithful(data, ranges, |ranges|);
    } else {
      var bad :| 0 <= bad < |ranges| && Misplaced(data, ranges[bad]);
      MisplacedIsShort(data, ranges, |ranges|, bad);
      RebuiltLength(data, ranges, |ranges|);
      TopIsCovered(data, ranges, |ranges|);
    }
  }

  /** The round trip of an image no larger than the fill: excerpt, then rebuild. */
  lemma ExcerptRoundTrip(data: seq<byte>, wanted: seq<Range>, ranges: seq<Range>, p: nat)
    requires |data| <= IMAGE && p < IMAGE && IsExcerpt(wanted, ranges)
    ensures var image := Rebuilt(PartsOf(data, ranges, |ranges|), |ranges|);
            |image| == IMAGE && image[p] == if p < |data| && Covers(wanted, p) then data[p] else 0xff
  {
    RebuildIsFaithfulIff(data, ranges);
    assert ranges[..|ranges|] == ranges;
    PlaceableIsFaithful(data, ranges, |ranges|);
    RebuiltLength(data, ranges, |ranges|);
    TopOfSmallImage(data, ranges, |ranges|);
    LengthReachesTop(data, ranges, |ranges|);
  }

  lemma {:induction false} TopOfSmallImage(data: seq<byte>, ranges: seq<Range>, n: nat)
    requires |data| <= IMAGE && n <= |ranges|
    ensures Top(data, ranges, n) == IMAGE
  {
    if n > 0 {
      TopOfSmallImage(data, ranges, n - 1);
    }
  }
}
