/**
 The map of free holes in a firmware image (scripts/audit-mtk-allocation.py): runs of four or more
 0xff bytes, cut by the reserved ranges, intersected with the coverage table and
 aligned, then sorted and merged.
 */
module Allocation {
  import opened Images
  import opened Intervals
  import opened Listings

  const FLOOR := 0x9c00
  const TABLE := 0x10400
  const ENTRIES := 16

  const RESERVED: seq<Range> := [
    Range(0, 0x1000), Range(0x3000, 0x3020), Range(0xfff0, 0x10400), Range(0x10400, 0x105c0),
    Range(0x105c0, 0x10610), Range(0x1d8000, 0x1ec100), Range(0x1f0000, 0x20_0000)]

  datatype Report = Report(coverage: seq<Range>, holes: seq<Range>, total: int, largest: int)

  // ---------------------------------------------------------------- the coverage table

  function EntryAt(i: nat): nat {
    TABLE + i * 28
  }

  /** The image holds the first `n` entries of the table. */
  predicate TableFits(b: seq<byte>, n: nat) {
    n > 0 ==> EntryAt(n - 1) + 12 <= |b|
  }

  /** Entry `i` is switched on and names an ordered range inside the image. */
  predicate Declares(b: seq<byte>, i: nat)
    requires EntryAt(i) + 12 <= |b|
  {
    Word(b, EntryAt(i)) == 1 && Word(b, EntryAt(i) + 4) <= Word(b, EntryAt(i) + 8) < |b|
  }

  function Declared(b: seq<byte>, i: nat): Range
    requires EntryAt(i) + 12 <= |b|
  {
    Range(Word(b, EntryAt(i) + 4), Word(b, EntryAt(i) + 8) + 1)
  }

  /** A declared entry among the first `n` holds the whole stretch. */
  ghost predicate InTable(b: seq<byte>, n: nat, l: int, h: int)
    requires TableFits(b, n)
  {
    exists i :: 0 <= i < n && Declares(b, i) && Declared(b, i).lo <= l && h <= Declared(b, i).hi
  }

  function CoverageOf(b: seq<byte>, n: nat): seq<Range>
    requires TableFits(b, n)
  {
    if n == 0 then [] else CoverageOf(b, n - 1) + if Declares(b, n - 1) then [Declared(b, n - 1)] else []
  }

  lemma {:induction false} CoverageHolds(b: seq<byte>, n: nat, l: int, h: int)
    requires TableFits(b, n)
    ensures Holds(CoverageOf(b, n), l, h) <==> InTable(b, n, l, h)
  {
    if n > 0 {
      CoverageHolds(b, n - 1, l, h);
      var here := if Declares(b, n - 1) then [Declared(b, n - 1)] else [];
      ConcatHolds(CoverageOf(b, n - 1), here, l, h);
      assert Holds(here, l, h) <==> Declares(b, n - 1) && here[0].lo <= l && h <= here[0].hi;
    }
  }

  /** Entry `i` of the table, 28 bytes each, is switched on and names the bytes from its second to its third word. */
  predicate Names(b: seq<byte>, i: nat, r: Range) {
    var at := 0x10400 + 28 * i;
    at + 12 <= |b| && Word(b, at) == 1 && Word(b, at + 4) == r.lo && Word(b, at + 8) == r.hi - 1 && r.lo < r.hi <= |b|
  }

  ghost predicate IsNamed(b: seq<byte>, i: nat) {
    exists r :: Names(b, i, r)
  }

  ghost function NamedEntries(b: seq<byte>): nat -> bool {
    (i: nat) => IsNamed(b, i)
  }

  /** The ranges that the first `n` entries name, in the order of the table. */
  ghost predicate ListsTable(b: seq<byte>, n: nat, coverage: seq<Range>, places: seq<nat>) {
    && |places| == |coverage| && Selects(n, NamedEntries(b), places)
    && forall k :: 0 <= k < |places| ==> Names(b, places[k], coverage[k])
  }

  lemma NamedIff(b: seq<byte>, i: nat)
    requires EntryAt(i) + 12 <= |b|
    ensures forall r :: Names(b, i, r) <==> Declares(b, i) && r == Declared(b, i)
    ensures IsNamed(b, i) <==> Declares(b, i)
  {
    assert Declares(b, i) ==> Names(b, i, Declared(b, i));
  }

  lemma {:induction false} CoverageIsListed(b: seq<byte>, n: nat) returns (places: seq<nat>)
    requires TableFits(b, n)
    ensures ListsTable(b, n, CoverageOf(b, n), places)
  {
    places := [];
    if n > 0 {
      places := CoverageIsListed(b, n - 1);
      SelectOneMore(n - 1, NamedEntries(b), places);
      NamedIff(b, n - 1);
      if Declares(b, n - 1) {
        places := places + [n - 1];
      }
    }
  }

  /** Reading past the end of a short image is an error, reported as None. */
  method Coverage(b: seq<byte>) returns (coverage: Option<seq<Range>>)
    ensures coverage.Some? <==> TableFits(b, ENTRIES)
    ensures coverage.Some? ==> coverage.value == CoverageOf(b, ENTRIES)
  {
    var kept := [];
    for i := 0 to ENTRIES
      invariant TableFits(b, i) && kept == CoverageOf(b, i)
    {
      if |b| < EntryAt(i) + 12 {
        return None;
      }
      var flag, start, end := Word(b, EntryAt(i)), Word(b, EntryAt(i) + 4), Word(b, EntryAt(i) + 8);
      if flag == 1 && start <= end < |b| {
        kept := kept + [Range(start, end + 1)];
      }
    }
    coverage := Some(kept);
  }

  // ---------------------------------------------------------------- from runs to holes

  /** A run of fill bytes as the search starts with it: long enough, and above the floor. */
  function Start(run: Range): seq<Range> {
    if run.hi - run.lo >= 4 && Max(run.lo, FLOOR) < run.hi then [Range(Max(run.lo, FLOOR), run.hi)] else []
  }

  function CutOne(piece: Range, cut: Range): seq<Range> {
    if cut.hi <= piece.lo || cut.lo >= piece.hi then [piece]
    else
      (if piece.lo < cut.lo then [Range(piece.lo, cut.lo)] else []) +
      if cut.hi < piece.hi then [Range(cut.hi, piece.hi)] else []
  }

  function CutBy(cut: Range): Range -> seq<Range> {
    piece => CutOne(piece, cut)
  }

  function CutAll(pieces: seq<Range>, n: nat): seq<Range>
    requires n <= |RESERVED|
  {
    if n == 0 then pieces
    else var before := CutAll(pieces, n - 1); Each(CutBy(RESERVED[n - 1]), before, |before|)
  }

  /** The next multiple of four. */
  function Align(x: int): int {
    (x + 3) / 4 * 4
  }

  function ClipOne(piece: Range, range: Range): seq<Range> {
    var l, h := Align(Max(piece.lo, range.lo)), Min(piece.hi, range.hi);
    if h - l >= 4 then [Range(l, h)] else []
  }

  function Clip(piece: Range): Range -> seq<Range> {
    range => ClipOne(piece, range)
  }

  function ClipBy(coverage: seq<Range>): Range -> seq<Range> {
    piece => Each(Clip(piece), coverage, |coverage|)
  }

  function HolesOfRun(coverage: seq<Range>): Range -> seq<Range> {
    run => var pieces := CutAll(Start(run), |RESERVED|); Each(ClipBy(coverage), pieces, |pieces|)
  }

  predicate Filled(b: seq<byte>, p: nat)
    requires p < |b|
  {
    b[p] == 0xff
  }

  function Fill(b: seq<byte>): (marks: seq<bool>)
    ensures |marks| == |b| && forall p :: 0 <= p < |b| ==> (marks[p] <==> Filled(b, p))
  {
    seq(|b|, p requires 0 <= p < |b| => Filled(b, p))
  }

  // ---------------------------------------------------------------- what a hole is

  /** Aligned and at least a word long. */
  predicate Aligned(l: int, h: int) {
    l % 4 == 0 && h - l >= 4
  }

  predicate Apart(r: Range, l: int, h: int) {
    h <= r.lo || r.hi <= l
  }

  /** Apart from every reserved range. */
  ghost predicate Unreserved(l: int, h: int) {
    forall k :: 0 <= k < |RESERVED| ==> Apart(RESERVED[k], l, h)
  }

  /** Only fill bytes above the floor, outside every reserved range, inside one declared range. */
  ghost predicate Free(b: seq<byte>, l: int, h: int)
    requires TableFits(b, ENTRIES)
  {
    && FLOOR <= l && h <= |b|
    && (forall p: nat :: l <= p < h ==> Filled(b, p))
    && Unreserved(l, h)
    && InTable(b, ENTRIES, l, h)
  }

  ghost predicate Eligible(b: seq<byte>, p: int)
    requires TableFits(b, ENTRIES)
  {
    exists l, h :: l <= p < h && Aligned(l, h) && Free(b, l, h)
  }

  lemma StartHolds(run: Range, l: int, h: int)
    requires h - l >= 4
    ensures Holds(Start(run), l, h) <==> run.lo <= l && h <= run.hi && FLOOR <= l
  {
    if run.lo <= l && h <= run.hi && FLOOR <= l {
      assert Start(run)[0].lo <= l && h <= Start(run)[0].hi;
    }
  }

  lemma CutOneHolds(piece: Range, cut: Range, l: int, h: int)
    requires l < h && cut.lo < cut.hi
    ensures Holds(CutOne(piece, cut), l, h) <==> piece.lo <= l && h <= piece.hi && Apart(cut, l, h)
  {
    var cuts := CutOne(piece, cut);
    if piece.lo <= l && h <= piece.hi && Apart(cut, l, h) {
      assert (cuts[0].lo <= l && h <= cuts[0].hi) || (cuts[|cuts| - 1].lo <= l && h <= cuts[|cuts| - 1].hi);
    }
  }

  lemma CutHolds(pieces: seq<Range>, cut: Range, l: int, h: int)
    requires l < h && cut.lo < cut.hi
    ensures Holds(Each(CutBy(cut), pieces, |pieces|), l, h) <==> Holds(pieces, l, h) && Apart(cut, l, h)
  {
    EachHolds(CutBy(cut), pieces, |pieces|, l, h);
    forall i | 0 <= i < |pieces|
      ensures Holds(CutBy(cut)(pieces[i]), l, h) <==> pieces[i].lo <= l && h <= pieces[i].hi && Apart(cut, l, h)
    {
      CutOneHolds(pieces[i], cut, l, h);
    }
  }

  /** Cutting keeps exactly the stretches apart from every range cut away. */
  lemma {:induction false} CutAllHolds(pieces: seq<Range>, n: nat, l: int, h: int)
    requires l < h && n <= |RESERVED|
    ensures Holds(CutAll(pieces, n), l, h) <==>
            Holds(pieces, l, h) && forall k :: 0 <= k < n ==> Apart(RESERVED[k], l, h)
  {
    if n > 0 {
      CutAllHolds(pieces, n - 1, l, h);
      CutHolds(CutAll(pieces, n - 1), RESERVED[n - 1], l, h);
    }
  }

  lemma ClipHolds(piece: Range, range: Range, l: int, h: int)
    requires Aligned(l, h)
    ensures Holds(Clip(piece)(range), l, h) <==>
            piece.lo <= l && h <= piece.hi && range.lo <= l && h <= range.hi
  {
    if piece.lo <= l && h <= piece.hi && range.lo <= l && h <= range.hi {
      assert Align(Max(piece.lo, range.lo)) <= l;
      assert Clip(piece)(range)[0].lo <= l && h <= Clip(piece)(range)[0].hi;
    }
  }

  lemma ClipByHolds(coverage: seq<Range>, piece: Range, l: int, h: int)
    requires Aligned(l, h)
    ensures Holds(ClipBy(coverage)(piece), l, h) <==> piece.lo <= l && h <= piece.hi && Holds(coverage, l, h)
  {
    EachHolds(Clip(piece), coverage, |coverage|, l, h);
    forall i | 0 <= i < |coverage|
      ensures Holds(Clip(piece)(coverage[i]), l, h) <==>
              piece.lo <= l && h <= piece.hi && coverage[i].lo <= l && h <= coverage[i].hi
    {
      ClipHolds(piece, coverage[i], l, h);
    }
  }

  lemma HolesOfRunHold(coverage: seq<Range>, run: Range, l: int, h: int)
    requires Aligned(l, h)
    ensures Holds(HolesOfRun(coverage)(run), l, h) <==>
            && run.lo <= l && h <= run.hi && FLOOR <= l
            && Unreserved(l, h)
            && Holds(coverage, l, h)
  {
    var pieces := CutAll(Start(run), |RESERVED|);
    EachHolds(ClipBy(coverage), pieces, |pieces|, l, h);
    forall i | 0 <= i < |pieces|
      ensures Holds(ClipBy(coverage)(pieces[i]), l, h) <==>
              pieces[i].lo <= l && h <= pieces[i].hi && Holds(coverage, l, h)
    {
      ClipByHolds(coverage, pieces[i], l, h);
    }
    CutAllHolds(Start(run), |RESERVED|, l, h);
    StartHolds(run, l, h);
  }

  // ---------------------------------------------------------------- all holes

  /** The holes of all runs together keep the aligned stretches of the runs that are usable. */
  lemma HolesOfRunsHold(runs: seq<Range>, coverage: seq<Range>, l: int, h: int)
    requires Aligned(l, h)
    ensures Holds(Each(HolesOfRun(coverage), runs, |runs|), l, h) <==>
            Holds(runs, l, h) && FLOOR <= l && Unreserved(l, h) && Holds(coverage, l, h)
  {
    EachHolds(HolesOfRun(coverage), runs, |runs|, l, h);
    forall i | 0 <= i < |runs|
      ensures Holds(HolesOfRun(coverage)(runs[i]), l, h) <==>
              && runs[i].lo <= l && h <= runs[i].hi && FLOOR <= l
              && Unreserved(l, h)
              && Holds(coverage, l, h)
    {
      HolesOfRunHold(coverage, runs[i], l, h);
    }
  }

  /** A long enough aligned stretch lies inside one hole exactly when it is free. */
  lemma HolesHold(b: seq<byte>, runs: seq<Range>, coverage: seq<Range>, l: int, h: int)
    requires TableFits(b, ENTRIES) && coverage == CoverageOf(b, ENTRIES)
    requires IsRuns(Fill(b), runs) && Aligned(l, h)
    ensures Holds(Each(HolesOfRun(coverage), runs, |runs|), l, h) <==> Free(b, l, h)
  {
    HolesOfRunsHold(runs, coverage, l, h);
    FillRuns(b, runs, l, h);
    CoverageHolds(b, ENTRIES, l, h);
  }

  lemma FillRuns(b: seq<byte>, runs: seq<Range>, l: int, h: int)
    requires IsRuns(Fill(b), runs) && l < h
    ensures Holds(runs, l, h) <==> 0 <= l && h <= |b| && forall p: nat :: l <= p < h ==> Filled(b, p)
  {
    RunsHoldStretches(Fill(b), runs, l, h);
  }

  lemma ClipByAligned(coverage: seq<Range>, piece: Range, x: Range)
    requires x in ClipBy(coverage)(piece)
    ensures Aligned(x.lo, x.hi)
  {
    var i := EachComesFrom(Clip(piece), coverage, |coverage|, x);
    assert x in ClipOne(piece, coverage[i]);
  }

  lemma HolesOfRunAligned(coverage: seq<Range>, run: Range, x: Range)
    requires x in HolesOfRun(coverage)(run)
    ensures Aligned(x.lo, x.hi)
  {
    var pieces := CutAll(Start(run), |RESERVED|);
    var i := EachComesFrom(ClipBy(coverage), pieces, |pieces|, x);
    ClipByAligned(coverage, pieces[i], x);
  }

  lemma HolesAreAligned(runs: seq<Range>, coverage: seq<Range>, x: Range)
    requires x in Each(HolesOfRun(coverage), runs, |runs|)
    ensures Aligned(x.lo, x.hi)
  {
    var i := EachComesFrom(HolesOfRun(coverage), runs, |runs|, x);
    HolesOfRunAligned(coverage, runs[i], x);
  }

  // ---------------------------------------------------------------- the report

  /** The holes before merging, sorted, with what an unmerged hole means. */
  ghost predicate IsHoleList(b: seq<byte>, holes: seq<Range>)
    requires TableFits(b, ENTRIES)
  {
    && (forall i :: 0 <= i < |holes| ==> Aligned(holes[i].lo, holes[i].hi))
    && forall l, h :: Aligned(l, h) ==> (Holds(holes, l, h) <==> Free(b, l, h))
  }

  lemma HoleListCovers(b: seq<byte>, holes: seq<Range>, p: int)
    requires TableFits(b, ENTRIES) && IsHoleList(b, holes)
    ensures Covers(holes, p) <==> Eligible(b, p)
  {
    if Covers(holes, p) {
      var i :| 0 <= i < |holes| && holes[i].lo <= p < holes[i].hi;
      assert Holds(holes, holes[i].lo, holes[i].hi);
      assert Free(b, holes[i].lo, holes[i].hi);
    }
    if Eligible(b, p) {
      var l, h :| l <= p < h && Aligned(l, h) && Free(b, l, h);
      assert Holds(holes, l, h);
      var i :| 0 <= i < |holes| && holes[i].lo <= l && h <= holes[i].hi;
      assert holes[i].lo <= p < holes[i].hi;
    }
  }

  lemma SortedHolds(holes: seq<Range>, l: int, h: int)
    ensures Holds(Sorted(holes), l, h) <==> Holds(holes, l, h)
  {
    if Holds(holes, l, h) {
      var i :| 0 <= i < |holes| && holes[i].lo <= l && h <= holes[i].hi;
      assert holes[i] in Sorted(holes);
    }
    if Holds(Sorted(holes), l, h) {
      var i :| 0 <= i < |Sorted(holes)| && Sorted(holes)[i].lo <= l && h <= Sorted(holes)[i].hi;
      assert Sorted(holes)[i] in holes;
    }
  }

  lemma SortedIsHoleList(b: seq<byte>, holes: seq<Range>)
    requires TableFits(b, ENTRIES) && IsHoleList(b, holes)
    ensures IsHoleList(b, Sorted(holes))
  {
    forall l, h | Aligned(l, h) ensures Holds(Sorted(holes), l, h) <==> Free(b, l, h) {
      SortedHolds(holes, l, h);
    }
    forall i | 0 <= i < |Sorted(holes)| ensures Aligned(Sorted(holes)[i].lo, Sorted(holes)[i].hi) {
      assert Sorted(holes)[i] in holes;
    }
  }

  /**
   What the hole map promises. Separated holes with aligned starts; a byte is in a hole
   exactly when it is eligible; a free stretch is never split between two holes.
   */
  ghost predicate IsHoleMap(b: seq<byte>, holes: seq<Range>)
    requires TableFits(b, ENTRIES)
  {
    && Separated(holes) && NoneEmpty(holes)
    && (forall i :: 0 <= i < |holes| ==> holes[i].lo % 4 == 0)
    && (forall p :: Covers(holes, p) <==> Eligible(b, p))
    && forall l, h :: Aligned(l, h) && Free(b, l, h) ==> Holds(holes, l, h)
  }

  lemma MergedIsHoleMap(b: seq<byte>, holes: seq<Range>)
    requires TableFits(b, ENTRIES) && IsHoleList(b, holes) && Ordered(holes)
    ensures IsHoleMap(b, Merged(holes))
  {
    var merged := Merged(holes);
    assert NoneEmpty(holes) by {
      forall i | 0 <= i < |holes| ensures holes[i].lo < holes[i].hi {
        assert Aligned(holes[i].lo, holes[i].hi);
      }
    }
    MergedAll(holes);
    forall p ensures Covers(merged, p) <==> Eligible(b, p) {
      HoleListCovers(b, holes, p);
    }
    forall i | 0 <= i < |merged| ensures merged[i].lo % 4 == 0 {
      assert merged[i] in merged;
      var r :| r in holes && r.lo == merged[i].lo;
      assert Aligned(r.lo, r.hi);
    }
    forall l, h | Aligned(l, h) && Free(b, l, h) ensures Holds(merged, l, h) {
      assert Holds(holes, l, h);
      var i :| 0 <= i < |holes| && holes[i].lo <= l && h <= holes[i].hi;
      WithinHolds(merged, holes[i], l, h);
    }
  }

  lemma WithinHolds(rs: seq<Range>, r: Range, l: int, h: int)
    requires Holds(rs, r.lo, r.hi) && r.lo <= l && h <= r.hi
    ensures Holds(rs, l, h)
  {
  }

  /** The greatest length in the list, zero when it is empty. */
  function Largest(rs: seq<Range>): (size: int)
    ensures rs == [] ==> size == 0
    ensures rs != [] ==> exists i :: 0 <= i < |rs| && size == rs[i].hi - rs[i].lo
    ensures forall i :: 0 <= i < |rs| ==> rs[i].hi - rs[i].lo <= size
  {
    if rs == [] then 0
    else
      var last := rs[|rs| - 1];
      if |rs| == 1 then assert rs[0] == last; last.hi - last.lo
      else Max(Largest(rs[..|rs| - 1]), last.hi - last.lo)
  }

  /** The part of a run that no reserved range touches. */
  method Unreserve(run: Range) returns (pieces: seq<Range>)
    ensures pieces == CutAll(Start(run), |RESERVED|)
  {
    pieces := Start(run);
    for k := 0 to |RESERVED|
      invariant pieces == CutAll(Start(run), k)
    {
      pieces := Each(CutBy(RESERVED[k]), pieces, |pieces|);
    }
  }

  /** Every piece against every coverage range. */
  method Intersect(pieces: seq<Range>, coverage: seq<Range>) returns (holes: seq<Range>)
    ensures holes == Each(ClipBy(coverage), pieces, |pieces|)
  {
    holes := [];
    for i := 0 to |pieces|
      invariant holes == Each(ClipBy(coverage), pieces, i)
    {
      for j := 0 to |coverage|
        invariant holes == Each(ClipBy(coverage), pieces, i) + Each(Clip(pieces[i]), coverage, j)
      {
        var l, h := Align(Max(pieces[i].lo, coverage[j].lo)), Min(pieces[i].hi, coverage[j].hi);
        if h - l >= 4 {
          holes := holes + [Range(l, h)];
        }
      }
    }
  }

  method Collect(b: seq<byte>, coverage: seq<Range>) returns (holes: seq<Range>)
    requires TableFits(b, ENTRIES) && coverage == CoverageOf(b, ENTRIES)
    ensures IsHoleList(b, holes)
  {
    var runs := Scan(Fill(b));
    holes := [];
    for n := 0 to |runs|
      invariant holes == Each(HolesOfRun(coverage), runs, n)
    {
      var pieces := Unreserve(runs[n]);
      var more := Intersect(pieces, coverage);
      holes := holes + more;
    }
    HoleListOf(b, runs, coverage);
  }

  /**
   A free stretch, told of the bytes alone: aligned, a word long or longer, only 0xff, nothing below 0x9c00 or
   reserved, and all of it in the range of one entry of the table.
   */
  ghost predicate FreeStretch(b: seq<byte>, l: int, h: int) {
    && l % 4 == 0 && l + 4 <= h && 0x9c00 <= l && h <= |b|
    && (forall p :: l <= p < h ==> b[p] == 0xff)
    && (forall r :: r in RESERVED ==> h <= r.lo || r.hi <= l)
    && exists i: nat, r :: i < 16 && Names(b, i, r) && r.lo <= l && h <= r.hi
  }

  /** The holes are exactly what free stretches make up, and none of these is split. */
  ghost predicate MapsFreeStretches(b: seq<byte>, holes: seq<Range>) {
    && Separated(holes) && NoneEmpty(holes)
    && (forall p :: Covers(holes, p) <==> exists l, h :: l <= p < h && FreeStretch(b, l, h))
    && forall l, h :: FreeStretch(b, l, h) ==> Holds(holes, l, h)
  }

  lemma InTableIff(b: seq<byte>, l: int, h: int)
    requires TableFits(b, ENTRIES)
    ensures InTable(b, ENTRIES, l, h) <==> exists i: nat, r :: i < 16 && Names(b, i, r) && r.lo <= l && h <= r.hi
  {
    forall i: nat | i < 16 ensures forall r :: Names(b, i, r) <==> Declares(b, i) && r == Declared(b, i) {
      NamedIff(b, i);
    }
    if i: nat, r :| i < 16 && Names(b, i, r) && r.lo <= l && h <= r.hi {
      assert Declares(b, i);
    }
    if InTable(b, ENTRIES, l, h) {
      var i :| 0 <= i < ENTRIES && Declares(b, i) && Declared(b, i).lo <= l && h <= Declared(b, i).hi;
      assert Names(b, i, Declared(b, i));
    }
  }

  lemma UnreservedIff(l: int, h: int)
    ensures Unreserved(l, h) <==> forall r :: r in RESERVED ==> h <= r.lo || r.hi <= l
  {
    if forall r :: r in RESERVED ==> h <= r.lo || r.hi <= l {
      forall k | 0 <= k < |RESERVED| ensures Apart(RESERVED[k], l, h) {
        assert RESERVED[k] in RESERVED;
      }
    }
  }

  lemma FilledIff(b: seq<byte>, l: int, h: int)
    requires 0 <= l && h <= |b|
    ensures (forall p: nat :: l <= p < h ==> Filled(b, p)) <==> forall p :: l <= p < h ==> b[p] == 0xff
  {
    if forall p: nat :: l <= p < h ==> Filled(b, p) {
      forall p | l <= p < h ensures b[p] == 0xff {
        assert Filled(b, p);
      }
    }
  }

  lemma FreeStretchIff(b: seq<byte>, l: int, h: int)
    requires TableFits(b, ENTRIES)
    ensures FreeStretch(b, l, h) <==> Aligned(l, h) && Free(b, l, h)
  {
    if 0x9c00 <= l && h <= |b| {
      InTableIff(b, l, h);
      UnreservedIff(l, h);
      FilledIff(b, l, h);
    }
  }

  lemma HoleMapMaps(b: seq<byte>, holes: seq<Range>)
    requires TableFits(b, ENTRIES) && IsHoleMap(b, holes)
    ensures MapsFreeStretches(b, holes)
  {
    forall l, h ensures FreeStretch(b, l, h) <==> Aligned(l, h) && Free(b, l, h) {
      FreeStretchIff(b, l, h);
    }
  }

  /** The whole analysis; None when the image is too short for the coverage table. */
  method FreeHoles(b: seq<byte>) returns (report: Option<Report>)
    ensures report.Some? <==> TableFits(b, ENTRIES)
    ensures report.Some? ==> report.value.coverage == CoverageOf(b, ENTRIES)
    ensures report.Some? ==> exists places :: ListsTable(b, ENTRIES, report.value.coverage, places)
    ensures report.Some? ==> IsHoleMap(b, report.value.holes)
    ensures report.Some? ==> MapsFreeStretches(b, report.value.holes)
    ensures report.Some? ==> report.value.total == Total(report.value.holes)
    ensures report.Some? ==> report.value.largest == Largest(report.value.holes)
  {
    var coverage := Coverage(b);
    if coverage.None? {
      return None;
    }
    ghost var places := CoverageIsListed(b, ENTRIES);
    var holes := Collect(b, coverage.value);
    SortedIsHoleList(b, holes);
    MergedIsHoleMap(b, Sorted(holes));
    HoleMapMaps(b, Merged(Sorted(holes)));
    var merged := Merge(Sorted(holes));
    report := Some(Report(coverage.value, merged, Total(merged), Largest(merged)));
  }

  lemma HoleListOf(b: seq<byte>, runs: seq<Range>, coverage: seq<Range>)
    requires TableFits(b, ENTRIES) && coverage == CoverageOf(b, ENTRIES) && IsRuns(Fill(b), runs)
    ensures IsHoleList(b, Each(HolesOfRun(coverage), runs, |runs|))
  {
    var holes := Each(HolesOfRun(coverage), runs, |runs|);
    forall i | 0 <= i < |holes| ensures Aligned(holes[i].lo, holes[i].hi) {
      HolesAreAligned(runs, coverage, holes[i]);
    }
    forall l, h | Aligned(l, h) ensures Holds(holes, l, h) <==> Free(b, l, h) {
      HolesHold(b, runs, coverage, l, h);
    }
  }

  // ---------------------------------------------------------------- what the map says about bytes and words

  /** Soundness, byte by byte. */
  lemma HoleBytesAreFree(b: seq<byte>, holes: seq<Range>, p: int)
    requires TableFits(b, ENTRIES) && IsHoleMap(b, holes) && Covers(holes, p)
    ensures FLOOR <= p < |b| && b[p] == 0xff
    ensures forall k :: 0 <= k < |RESERVED| ==> !(RESERVED[k].lo <= p < RESERVED[k].hi)
    ensures exists i :: 0 <= i < ENTRIES && Declares(b, i) && Word(b, EntryAt(i) + 4) <= p <= Word(b, EntryAt(i) + 8)
  {
    var l, h :| l <= p < h && Aligned(l, h) && Free(b, l, h);
    assert Filled(b, p);
    forall k | 0 <= k < |RESERVED| ensures !(RESERVED[k].lo <= p < RESERVED[k].hi) {
      assert Apart(RESERVED[k], l, h);
    }
    var i :| 0 <= i < ENTRIES && Declares(b, i) && Declared(b, i).lo <= l && h <= Declared(b, i).hi;
    assert Declares(b, i) && Word(b, EntryAt(i) + 4) <= p <= Word(b, EntryAt(i) + 8);
  }

  /** Completeness, word by word. */
  lemma FreeWordsAreInHoles(b: seq<byte>, holes: seq<Range>, p: int, entry: nat)
    requires TableFits(b, ENTRIES) && IsHoleMap(b, holes)
    requires p % 4 == 0 && FLOOR <= p && p + 4 <= |b|
    requires b[p] == b[p + 1] == b[p + 2] == b[p + 3] == 0xff
    requires forall k :: 0 <= k < |RESERVED| ==> Apart(RESERVED[k], p, p + 4)
    requires entry < ENTRIES && Declares(b, entry)
    requires Declared(b, entry).lo <= p && p + 4 <= Declared(b, entry).hi
    ensures Holds(holes, p, p + 4)
  {
    assert InTable(b, ENTRIES, p, p + 4);
    assert Unreserved(p, p + 4);
    assert Aligned(p, p + 4) && Free(b, p, p + 4);
  }

  /** The map is determined by the image, whatever order the holes were found in. */
  lemma HoleMapIsUnique(b: seq<byte>, holes: seq<Range>, others: seq<Range>)
    requires TableFits(b, ENTRIES) && IsHoleMap(b, holes) && IsHoleMap(b, others)
    ensures holes == others
  {
    CoverageDetermines(holes, others);
  }

  /** The reported total is the number of eligible bytes. */
  lemma TotalIsEligibleBytes(b: seq<byte>, holes: seq<Range>) returns (eligible: set<int>)
    requires TableFits(b, ENTRIES) && IsHoleMap(b, holes)
    ensures forall p :: p in eligible <==> Eligible(b, p)
    ensures |eligible| == Total(holes)
  {
    eligible := TotalCountsPoints(holes);
  }

  /** No free stretch is longer than the reported largest hole. */
  lemma LargestBoundsFreeStretches(b: seq<byte>, holes: seq<Range>, l: int, h: int)
    requires TableFits(b, ENTRIES) && IsHoleMap(b, holes) && Aligned(l, h) && Free(b, l, h)
    ensures h - l <= Largest(holes)
  {
    assert Holds(holes, l, h);
  }
}
