/** Half-open ranges of addresses: what a list of them covers, merging, cutting and scanning. */
module Intervals {
  import opened Images

  datatype Range = Range(lo: int, hi: int)

  /** Some range of the list holds the whole stretch. A point `p` is the stretch from `p` to `p + 1`. */
  ghost predicate Holds(rs: seq<Range>, l: int, h: int) {
    exists i :: 0 <= i < |rs| && rs[i].lo <= l && h <= rs[i].hi
  }

  ghost predicate Covers(rs: seq<Range>, p: int) {
    exists i :: 0 <= i < |rs| && rs[i].lo <= p < rs[i].hi
  }

  predicate Ordered(rs: seq<Range>) {
    forall i, j :: 0 <= i < j < |rs| ==> rs[i].lo <= rs[j].lo
  }

  predicate NoneInverted(rs: seq<Range>) {
    forall i :: 0 <= i < |rs| ==> rs[i].lo <= rs[i].hi
  }

  predicate NoneEmpty(rs: seq<Range>) {
    forall i :: 0 <= i < |rs| ==> rs[i].lo < rs[i].hi
  }

  /** In order, with a gap between each range and the next. */
  predicate Separated(rs: seq<Range>) {
    forall i, j :: 0 <= i < j < |rs| ==> rs[i].hi < rs[j].lo
  }

  // ---------------------------------------------------------------- sorting and merging

  function Insert(r: Range, rs: seq<Range>): (s: seq<Range>)
    requires Ordered(rs)
    ensures Ordered(s) && forall x :: x in s <==> x == r || x in rs
  {
    if rs == [] then [r]
    else if r.lo <= rs[0].lo then [r] + rs
    else
      var rest := Insert(r, rs[1..]);
      assert forall x :: x in rest ==> rs[0].lo <= x.lo;
      assert rs == [rs[0]] + rs[1..];
      [rs[0]] + rest
  }

  function Sorted(rs: seq<Range>): (s: seq<Range>)
    ensures Ordered(s) && forall x :: x in s <==> x in rs
  {
    if rs == [] then [] else assert rs == [rs[0]] + rs[1..]; Insert(rs[0], Sorted(rs[1..]))
  }

  /** One more range at the end: joined to the last one when it starts inside it or right after it. */
  function Joined(merged: seq<Range>, r: Range): seq<Range> {
    if merged != [] && r.lo <= merged[|merged| - 1].hi then
      merged[|merged| - 1 := Range(merged[|merged| - 1].lo, Max(r.hi, merged[|merged| - 1].hi))]
    else merged + [r]
  }

  function Merged(rs: seq<Range>): seq<Range> {
    if rs == [] then [] else Joined(Merged(rs[..|rs| - 1]), rs[|rs| - 1])
  }

  lemma MergedStep(rs: seq<Range>, n: nat)
    requires n < |rs|
    ensures Merged(rs[..n + 1]) == Joined(Merged(rs[..n]), rs[n])
  {
    assert rs[..n + 1][..n] == rs[..n];
  }

  method Merge(rs: seq<Range>) returns (merged: seq<Range>)
    ensures merged == Merged(rs)
  {
    merged := [];
    for n := 0 to |rs|
      invariant merged == Merged(rs[..n])
    {
      if merged != [] && rs[n].lo <= merged[|merged| - 1].hi {
        var last := merged[|merged| - 1];
        merged := merged[|merged| - 1 := Range(last.lo, Max(rs[n].hi, last.hi))];
      } else {
        merged := merged + [rs[n]];
      }
      MergedStep(rs, n);
    }
    assert rs[..|rs|] == rs;
  }

  /** A list whose last range a new one, starting no earlier, can be joined to. */
  ghost predicate Joinable(merged: seq<Range>, r: Range) {
    Separated(merged) && NoneInverted(merged) && r.lo <= r.hi && (merged != [] ==> merged[|merged| - 1].lo <= r.lo)
  }

  lemma JoinedIsSeparated(merged: seq<Range>, r: Range)
    requires Joinable(merged, r)
    ensures Separated(Joined(merged, r)) && NoneInverted(Joined(merged, r))
    ensures Joined(merged, r) != [] && Joined(merged, r)[|Joined(merged, r)| - 1].lo <= r.lo
  {
  }

  lemma JoinedCovers(merged: seq<Range>, r: Range, p: int)
    requires Joinable(merged, r)
    ensures Covers(Joined(merged, r), p) <==> Covers(merged, p) || r.lo <= p < r.hi
  {
    var joined := Joined(merged, r);
    var n := |joined| - 1;
    if Covers(merged, p) {
      var i :| 0 <= i < |merged| && merged[i].lo <= p < merged[i].hi;
      assert joined[i].lo <= p < joined[i].hi;
    }
    if r.lo <= p < r.hi {
      assert joined[n].lo <= p < joined[n].hi;
    }
    if Covers(joined, p) {
      var i :| 0 <= i < |joined| && joined[i].lo <= p < joined[i].hi;
      assert i < n ==> merged[i].lo <= p < merged[i].hi;
      assert i == n && !(r.lo <= p < r.hi) && |joined| == |merged| ==> merged[n].lo <= p < merged[n].hi;
    }
  }

  lemma JoinedHolds(merged: seq<Range>, r: Range, l: int, h: int)
    requires Joinable(merged, r)
    requires Holds(merged, l, h) || (r.lo <= l && h <= r.hi)
    ensures Holds(Joined(merged, r), l, h)
  {
    var joined := Joined(merged, r);
    if Holds(merged, l, h) {
      var i :| 0 <= i < |merged| && merged[i].lo <= l && h <= merged[i].hi;
      assert joined[i].lo <= l && h <= joined[i].hi;
    } else {
      assert joined[|joined| - 1].lo <= l && h <= joined[|joined| - 1].hi;
    }
  }

  /** Starts and ends of the merged ranges are starts and ends of given ones. */
  ghost predicate BoundsFrom(merged: seq<Range>, rs: seq<Range>) {
    forall m :: m in merged ==> (exists r :: r in rs && r.lo == m.lo) && exists r :: r in rs && r.hi == m.hi
  }

  lemma JoinedBounds(merged: seq<Range>, rs: seq<Range>, r: Range)
    requires BoundsFrom(merged, rs) && r in rs
    ensures BoundsFrom(Joined(merged, r), rs)
  {
    var joined := Joined(merged, r);
    forall m | m in joined ensures (exists x :: x in rs && x.lo == m.lo) && exists x :: x in rs && x.hi == m.hi {
      if m !in merged && m != r {
        var last := merged[|merged| - 1];
        assert last in merged && m.lo == last.lo;
      }
    }
  }

  /** Merging ordered ranges separates them. */
  lemma {:induction false} MergedIsSeparated(rs: seq<Range>, n: nat)
    requires Ordered(rs) && NoneInverted(rs) && n <= |rs|
    ensures var m := Merged(rs[..n]); Separated(m) && NoneInverted(m) && BoundsFrom(m, rs)
    ensures var m := Merged(rs[..n]); n > 0 ==> m != [] && m[|m| - 1].lo <= rs[n - 1].lo
    ensures n < |rs| ==> Joinable(Merged(rs[..n]), rs[n])
  {
    if n > 0 {
      MergedIsSeparated(rs, n - 1);
      MergedStep(rs, n - 1);
      JoinedIsSeparated(Merged(rs[..n - 1]), rs[n - 1]);
      JoinedBounds(Merged(rs[..n - 1]), rs, rs[n - 1]);
    }
  }

  /** Merging ordered ranges covers the points they cover. */
  lemma {:induction false} MergedCovers(rs: seq<Range>, n: nat, p: int)
    requires Ordered(rs) && NoneInverted(rs) && n <= |rs|
    ensures Covers(Merged(rs[..n]), p) <==> Covers(rs[..n], p)
  {
    if n > 0 {
      MergedCovers(rs, n - 1, p);
      MergedIsSeparated(rs, n - 1);
      MergedStep(rs, n - 1);
      JoinedCovers(Merged(rs[..n - 1]), rs[n - 1], p);
      CoversOneMore(rs, n, p);
    }
  }

  /** Every given range lies whole inside one merged range. */
  lemma {:induction false} MergedHolds(rs: seq<Range>, n: nat, i: nat)
    requires Ordered(rs) && NoneInverted(rs) && i < n <= |rs|
    ensures Holds(Merged(rs[..n]), rs[i].lo, rs[i].hi)
  {
    if i < n - 1 {
      MergedHolds(rs, n - 1, i);
    }
    MergedIsSeparated(rs, n - 1);
    MergedStep(rs, n - 1);
    JoinedHolds(Merged(rs[..n - 1]), rs[n - 1], rs[i].lo, rs[i].hi);
  }

  lemma CoversOneMore(rs: seq<Range>, n: nat, p: int)
    requires 0 < n <= |rs|
    ensures Covers(rs[..n], p) <==> Covers(rs[..n - 1], p) || rs[n - 1].lo <= p < rs[n - 1].hi
  {
    if Covers(rs[..n], p) {
      var i :| 0 <= i < n && rs[..n][i].lo <= p < rs[..n][i].hi;
      assert i < n - 1 ==> rs[..n - 1][i].lo <= p < rs[..n - 1][i].hi;
    }
    if Covers(rs[..n - 1], p) {
      var i :| 0 <= i < n - 1 && rs[..n - 1][i].lo <= p < rs[..n - 1][i].hi;
      assert rs[..n][i].lo <= p < rs[..n][i].hi;
    }
    if rs[n - 1].lo <= p < rs[n - 1].hi {
      assert rs[..n][n - 1].lo <= p < rs[..n][n - 1].hi;
    }
  }

  /** What `f` makes of each of the first `n` ranges, in order. */
  function Each(f: Range -> seq<Range>, rs: seq<Range>, n: nat): seq<Range>
    requires n <= |rs|
  {
    if n == 0 then [] else Each(f, rs, n - 1) + f(rs[n - 1])
  }

  lemma ConcatHolds(rs: seq<Range>, ss: seq<Range>, l: int, h: int)
    ensures Holds(rs + ss, l, h) <==> Holds(rs, l, h) || Holds(ss, l, h)
  {
    if Holds(rs, l, h) {
      var i :| 0 <= i < |rs| && rs[i].lo <= l && h <= rs[i].hi;
      assert (rs + ss)[i].lo <= l && h <= (rs + ss)[i].hi;
    }
    if Holds(ss, l, h) {
      var i :| 0 <= i < |ss| && ss[i].lo <= l && h <= ss[i].hi;
      assert (rs + ss)[|rs| + i].lo <= l && h <= (rs + ss)[|rs| + i].hi;
    }
  }

  lemma {:induction false} EachHolds(f: Range -> seq<Range>, rs: seq<Range>, n: nat, l: int, h: int)
    requires n <= |rs|
    ensures Holds(Each(f, rs, n), l, h) <==> exists i :: 0 <= i < n && Holds(f(rs[i]), l, h)
  {
    if n > 0 {
      EachHolds(f, rs, n - 1, l, h);
      ConcatHolds(Each(f, rs, n - 1), f(rs[n - 1]), l, h);
    }
  }

  lemma {:induction false} EachComesFrom(f: Range -> seq<Range>, rs: seq<Range>, n: nat, x: Range) returns (i: nat)
    requires n <= |rs| && x in Each(f, rs, n)
    ensures i < n && x in f(rs[i])
  {
    if x in f(rs[n - 1]) {
      i := n - 1;
    } else {
      i := EachComesFrom(f, rs, n - 1, x);
    }
  }

  // ---------------------------------------------------------------- canonical form

  /**
   Coverage determines a separated list: two of them that cover the same points are
   the same list.
   */
  lemma {:induction false} CoverageDetermines(rs: seq<Range>, ss: seq<Range>)
    requires Separated(rs) && NoneEmpty(rs) && Separated(ss) && NoneEmpty(ss)
    requires forall p :: Covers(rs, p) <==> Covers(ss, p)
    ensures rs == ss
    decreases |rs|
  {
    if rs == [] {
      NonemptyCovers(ss);
    } else if ss == [] {
      NonemptyCovers(rs);
    } else {
      FirstsAgree(rs, ss);
      forall p ensures Covers(rs[1..], p) <==> Covers(ss[1..], p) {
        CoversTail(rs, p);
        CoversTail(ss, p);
      }
      CoverageDetermines(rs[1..], ss[1..]);
      assert rs == [rs[0]] + rs[1..] && ss == [ss[0]] + ss[1..];
    }
  }

  /** Merging is determined by what is covered: neither repeats nor the order among equal starts matter. */
  lemma MergedIsDetermined(rs: seq<Range>, ss: seq<Range>)
    requires Ordered(rs) && NoneEmpty(rs) && Ordered(ss) && NoneEmpty(ss)
    requires forall p :: Covers(rs, p) <==> Covers(ss, p)
    ensures Merged(rs) == Merged(ss)
  {
    MergedAll(rs);
    MergedAll(ss);
    CoverageDetermines(Merged(rs), Merged(ss));
  }

  /** The whole list merged: separated, none empty when none was, and the same coverage. */
  lemma MergedAll(rs: seq<Range>)
    requires Ordered(rs) && NoneInverted(rs)
    ensures Separated(Merged(rs)) && NoneInverted(Merged(rs)) && BoundsFrom(Merged(rs), rs)
    ensures NoneEmpty(rs) ==> NoneEmpty(Merged(rs))
    ensures forall p :: Covers(Merged(rs), p) <==> Covers(rs, p)
    ensures forall i :: 0 <= i < |rs| ==> Holds(Merged(rs), rs[i].lo, rs[i].hi)
  {
    assert rs[..|rs|] == rs;
    MergedIsSeparated(rs, |rs|);
    forall p ensures Covers(Merged(rs), p) <==> Covers(rs, p) {
      MergedCovers(rs, |rs|, p);
    }
    forall i | 0 <= i < |rs| ensures Holds(Merged(rs), rs[i].lo, rs[i].hi) {
      MergedHolds(rs, |rs|, i);
    }
    if NoneEmpty(rs) {
      MergedNoneEmpty(rs, |rs|);
    }
  }

  lemma {:induction false} MergedNoneEmpty(rs: seq<Range>, n: nat)
    requires Ordered(rs) && NoneEmpty(rs) && n <= |rs|
    ensures NoneEmpty(Merged(rs[..n]))
  {
    if n > 0 {
      MergedNoneEmpty(rs, n - 1);
      MergedStep(rs, n - 1);
      MergedIsSeparated(rs, n - 1);
      JoinedNoneEmpty(Merged(rs[..n - 1]), rs[n - 1]);
    }
  }

  lemma JoinedNoneEmpty(merged: seq<Range>, r: Range)
    requires Joinable(merged, r) && NoneEmpty(merged) && r.lo < r.hi
    ensures NoneEmpty(Joined(merged, r))
  {
  }

  lemma NonemptyCovers(rs: seq<Range>)
    requires NoneEmpty(rs)
    ensures rs != [] ==> exists p :: Covers(rs, p)
  {
    if rs != [] {
      assert rs[0].lo <= rs[0].lo < rs[0].hi;
      assert Covers(rs, rs[0].lo);
    }
  }

  lemma CoversTail(rs: seq<Range>, p: int)
    requires Separated(rs) && NoneEmpty(rs) && rs != []
    ensures Covers(rs[1..], p) <==> Covers(rs, p) && p >= rs[0].hi
  {
    if Covers(rs[1..], p) {
      var i :| 0 <= i < |rs| - 1 && rs[1..][i].lo <= p < rs[1..][i].hi;
      assert rs[i + 1].lo <= p < rs[i + 1].hi;
    }
    if Covers(rs, p) && p >= rs[0].hi {
      var i :| 0 <= i < |rs| && rs[i].lo <= p < rs[i].hi;
      assert rs[1..][i - 1].lo <= p < rs[1..][i - 1].hi;
    }
  }

  /** Nothing before the first range is covered, nor is the point at its end. */
  lemma FirstIsMaximal(rs: seq<Range>)
    requires Separated(rs) && NoneEmpty(rs) && rs != []
    ensures Covers(rs, rs[0].lo) && !Covers(rs, rs[0].hi)
    ensures forall p :: p < rs[0].lo ==> !Covers(rs, p)
    ensures forall p :: rs[0].lo <= p < rs[0].hi ==> Covers(rs, p)
  {
  }

  lemma FirstsAgree(rs: seq<Range>, ss: seq<Range>)
    requires Separated(rs) && NoneEmpty(rs) && Separated(ss) && NoneEmpty(ss) && rs != [] && ss != []
    requires forall p :: Covers(rs, p) <==> Covers(ss, p)
    ensures rs[0] == ss[0]
  {
    FirstIsMaximal(rs);
    FirstIsMaximal(ss);
    assert Covers(ss, rs[0].lo) && Covers(rs, ss[0].lo);
    assert !Covers(ss, rs[0].hi) && !Covers(rs, ss[0].hi);
  }

  // ---------------------------------------------------------------- size

  function Total(rs: seq<Range>): int {
    if rs == [] then 0 else Total(rs[..|rs| - 1]) + rs[|rs| - 1].hi - rs[|rs| - 1].lo
  }

  /** The total length of separated ranges is the number of points they cover. */
  lemma {:induction false} TotalCountsPoints(rs: seq<Range>) returns (points: set<int>)
    requires Separated(rs) && NoneInverted(rs)
    ensures forall p :: p in points <==> Covers(rs, p)
    ensures |points| == Total(rs)
    decreases |rs|
  {
    if rs == [] {
      points := {};
    } else {
      var n := |rs|;
      var before := TotalCountsPoints(rs[..n - 1]);
      var last := Points(rs[n - 1].lo, rs[n - 1].hi);
      points := before + last;
      assert rs[..n] == rs;
      forall p ensures p in points <==> Covers(rs, p) {
        CoversOneMore(rs, n, p);
      }
      assert before !! last;
    }
  }

  // ---------------------------------------------------------------- maximal runs

  /** `rs` are exactly the maximal runs of marked positions. */
  ghost predicate IsRuns(marks: seq<bool>, rs: seq<Range>) {
    && Separated(rs) && NoneEmpty(rs)
    && forall p :: Covers(rs, p) <==> 0 <= p < |marks| && marks[p]
  }

  /** The runs are determined by the marks. */
  lemma RunsAreUnique(marks: seq<bool>, rs: seq<Range>, ss: seq<Range>)
    requires IsRuns(marks, rs) && IsRuns(marks, ss)
    ensures rs == ss
  {
    CoverageDetermines(rs, ss);
  }

  /** Every marked stretch lies inside one run. */
  lemma RunsHoldStretches(marks: seq<bool>, rs: seq<Range>, l: int, h: int)
    requires IsRuns(marks, rs) && l < h
    ensures Holds(rs, l, h) <==> 0 <= l && h <= |marks| && forall p :: l <= p < h ==> marks[p]
  {
    if Holds(rs, l, h) {
      var i :| 0 <= i < |rs| && rs[i].lo <= l && h <= rs[i].hi;
      forall p | l <= p < h ensures Covers(rs, p) {
        assert rs[i].lo <= p < rs[i].hi;
      }
      assert Covers(rs, l) && Covers(rs, h - 1);
    }
    if 0 <= l && h <= |marks| && forall p :: l <= p < h ==> marks[p] {
      assert Covers(rs, l);
      var i :| 0 <= i < |rs| && rs[i].lo <= l < rs[i].hi;
      EndIsNotCovered(rs, i);
      assert h <= rs[i].hi;
    }
  }

  lemma EndIsNotCovered(rs: seq<Range>, i: nat)
    requires Separated(rs) && NoneEmpty(rs) && i < |rs|
    ensures !Covers(rs, rs[i].hi)
  {
  }

  /** The scan has looked at `n` marks; `start` is where the run it is in began. */
  ghost predicate Scanning(marks: seq<bool>, n: nat, rs: seq<Range>, start: Option<nat>) {
    var edge := if start.Some? then start.value else n;
    && edge <= n <= |marks|
    && Separated(rs) && NoneEmpty(rs)
    && (forall i :: 0 <= i < |rs| ==> rs[i].hi < edge)
    && (forall p :: edge <= p < n ==> marks[p])
    && (start.Some? ==> edge < n)
    && forall p :: Covers(rs, p) <==> 0 <= p < edge && marks[p]
  }

  lemma CoversAppended(rs: seq<Range>, r: Range, p: int)
    ensures Covers(rs + [r], p) <==> Covers(rs, p) || r.lo <= p < r.hi
  {
    CoversOneMore(rs + [r], |rs| + 1, p);
    assert (rs + [r])[..|rs|] == rs && (rs + [r])[..|rs| + 1] == rs + [r];
  }

  lemma RunEnds(marks: seq<bool>, n: nat, rs: seq<Range>, start: nat)
    requires Scanning(marks, n, rs, Some(start))
    ensures n == |marks| ==> IsRuns(marks, rs + [Range(start, n)])
    ensures n < |marks| && !marks[n] ==> Scanning(marks, n + 1, rs + [Range(start, n)], None)
  {
    forall p ensures Covers(rs + [Range(start, n)], p) <==> 0 <= p < n && marks[p] {
      CoversAppended(rs, Range(start, n), p);
    }
  }

  /** The marked runs, in one pass. */
  method Scan(marks: seq<bool>) returns (rs: seq<Range>)
    ensures IsRuns(marks, rs)
  {
    rs := [];
    var start: Option<nat> := None;
    for n := 0 to |marks|
      invariant Scanning(marks, n, rs, start)
    {
      if marks[n] && start.None? {
        start := Some(n);
      }
      if !marks[n] && start.Some? {
        RunEnds(marks, n, rs, start.value);
        rs := rs + [Range(start.value, n)];
        start := None;
      }
    }
    if start.Some? {
      RunEnds(marks, |marks|, rs, start.value);
      rs := rs + [Range(start.value, |marks|)];
    }
  }
}
