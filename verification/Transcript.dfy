/**
 The transcript of one run (scripts/hil/pioneer_parity.py): requests of a diagnostic log
 paired with their results, and repeated polling collapsed.
 */
module Transcript {
  import opened Images
  import opened Listings

  /** A log line, as the two patterns read it; the request pattern is tried first. */
  datatype Line<Q, R> = Request(request: Q) | Result(result: R) | Other

  datatype Step<Q, R> = Step(request: Q, result: Option<R>)

  datatype Count = Once | Repeated

  datatype Entry<S> = Entry(step: S, count: Count)

  /** A maximal run of equal steps. */
  datatype Run<S> = Run(step: S, length: nat)

  // ---------------------------------------------------------------- pairing

  /** The first result of the lines, if it comes before the next request. */
  function FirstResult<Q, R>(lines: seq<Line<Q, R>>): Option<R> {
    if lines == [] || lines[0].Request? then None
    else if lines[0].Result? then Some(lines[0].result)
    else FirstResult(lines[1..])
  }

  /** Every request, in order, with the first result before the next request. */
  function Exchanges<Q, R>(lines: seq<Line<Q, R>>): seq<Step<Q, R>> {
    if lines == [] then []
    else if lines[0].Request? then [Step(lines[0].request, FirstResult(lines[1..]))] + Exchanges(lines[1..])
    else Exchanges(lines[1..])
  }

  /** What the pairs become once the rest of the lines has been read. */
  function Resumed<Q, R>(pairs: seq<Step<Q, R>>, rest: seq<Line<Q, R>>): seq<Step<Q, R>> {
    var n := |pairs|;
    if n > 0 && pairs[n - 1].result.None? then
      pairs[..n - 1] + [Step(pairs[n - 1].request, FirstResult(rest))] + Exchanges(rest)
    else pairs + Exchanges(rest)
  }

  /** The pairs after one line. */
  function Read<Q, R>(pairs: seq<Step<Q, R>>, line: Line<Q, R>): seq<Step<Q, R>> {
    var n := |pairs|;
    if line.Request? then pairs + [Step(line.request, None)]
    else if line.Result? && n > 0 && pairs[n - 1].result.None? then
      pairs[n - 1 := Step(pairs[n - 1].request, Some(line.result))]
    else pairs
  }

  /** The last request still waits for its result. */
  predicate IsOpen<Q, R>(pairs: seq<Step<Q, R>>) {
    pairs != [] && pairs[|pairs| - 1].result.None?
  }

  /** When no result comes before the next request, the pairs stay as they are. */
  lemma NothingResumed<Q, R>(pairs: seq<Step<Q, R>>, rest: seq<Line<Q, R>>)
    requires !IsOpen(pairs) || FirstResult(rest).None?
    ensures Resumed(pairs, rest) == pairs + Exchanges(rest)
  {
    if IsOpen(pairs) {
      var n := |pairs|;
      assert pairs[..n - 1] + [Step(pairs[n - 1].request, None)] == pairs;
    }
  }

  lemma Associative<T>(a: seq<T>, b: seq<T>, c: seq<T>)
    ensures a + (b + c) == a + b + c
  {
  }

  lemma RequestKeepsResumed<Q, R>(pairs: seq<Step<Q, R>>, rest: seq<Line<Q, R>>)
    requires rest != [] && rest[0].Request?
    ensures Resumed(Read(pairs, rest[0]), rest[1..]) == Resumed(pairs, rest)
  {
    var read, step := Read(pairs, rest[0]), Step(rest[0].request, FirstResult(rest[1..]));
    NothingResumed(pairs, rest);
    assert read[..|read| - 1] == pairs;
    Associative(pairs, [step], Exchanges(rest[1..]));
  }

  lemma ResultKeepsResumed<Q, R>(pairs: seq<Step<Q, R>>, rest: seq<Line<Q, R>>)
    requires rest != [] && rest[0].Result?
    ensures Resumed(Read(pairs, rest[0]), rest[1..]) == Resumed(pairs, rest)
  {
    var read, n := Read(pairs, rest[0]), |pairs|;
    assert !IsOpen(read);
    NothingResumed(read, rest[1..]);
    if IsOpen(pairs) {
      assert read == pairs[..n - 1] + [Step(pairs[n - 1].request, FirstResult(rest))];
    }
  }

  lemma ReadKeepsResumed<Q, R>(pairs: seq<Step<Q, R>>, rest: seq<Line<Q, R>>)
    requires rest != []
    ensures Resumed(Read(pairs, rest[0]), rest[1..]) == Resumed(pairs, rest)
  {
    if rest[0].Request? {
      RequestKeepsResumed(pairs, rest);
    } else if rest[0].Result? {
      ResultKeepsResumed(pairs, rest);
    } else {
      assert FirstResult(rest) == FirstResult(rest[1..]) && Exchanges(rest) == Exchanges(rest[1..]);
    }
  }

  // What the pairs are, in terms of the places of the lines.

  /** Line `j` is the result that comes first behind line `i`, with no request between them. */
  predicate Answers<Q, R>(lines: seq<Line<Q, R>>, i: nat, j: nat) {
    i < j < |lines| && lines[j].Result? && forall m :: i < m < j ==> lines[m].Other?
  }

  ghost predicate IsAnswer<Q, R(!new)>(lines: seq<Line<Q, R>>, i: nat, result: Option<R>) {
    match result
    case Some(r) => exists j: nat :: Answers(lines, i, j) && lines[j].result == r
    case None => forall j: nat :: !Answers(lines, i, j)
  }

  ghost predicate IsStep<Q, R(!new)>(lines: seq<Line<Q, R>>, i: nat, step: Step<Q, R>) {
    i < |lines| && lines[i].Request? && lines[i].request == step.request && IsAnswer(lines, i, step.result)
  }

  function RequestFrom<Q, R>(lines: seq<Line<Q, R>>, n: nat): nat -> bool {
    i => n <= i < |lines| && lines[i].Request?
  }

  /** All requests from line `n` on, in order and at `places`, each with the result that answers it if one does. */
  ghost predicate IsPairingFrom<Q, R(!new)>(lines: seq<Line<Q, R>>, n: nat, pairs: seq<Step<Q, R>>, places: seq<nat>) {
    && |places| == |pairs| && Selects(|lines|, RequestFrom(lines, n), places)
    && forall k :: 0 <= k < |places| ==> IsStep(lines, places[k], pairs[k])
  }

  ghost predicate IsPairing<Q, R(!new)>(lines: seq<Line<Q, R>>, pairs: seq<Step<Q, R>>, places: seq<nat>) {
    IsPairingFrom(lines, 0, pairs, places)
  }

  /** The first result behind a line answers it. */
  lemma {:induction false} FirstResultAnswers<Q, R(!new)>(lines: seq<Line<Q, R>>, i: nat)
    requires i < |lines|
    ensures IsAnswer(lines, i, FirstResult(lines[i + 1..]))
    decreases |lines| - i
  {
    if i + 1 < |lines| {
      assert lines[i + 1..][1..] == lines[i + 2..];
      if lines[i + 1].Result? {
        assert Answers(lines, i, i + 1);
      } else if lines[i + 1].Other? {
        FirstResultAnswers(lines, i + 1);
        SameAnswerBefore(lines, i, FirstResult(lines[i + 2..]));
      } else {
        forall j: nat ensures !Answers(lines, i, j) {
          assert i < i + 1 < j < |lines| ==> !lines[i + 1].Other?;
        }
      }
    }
  }

  lemma SameAnswerBefore<Q, R(!new)>(lines: seq<Line<Q, R>>, i: nat, result: Option<R>)
    requires i + 1 < |lines| && lines[i + 1].Other? && IsAnswer(lines, i + 1, result)
    ensures IsAnswer(lines, i, result)
  {
    forall j: nat ensures Answers(lines, i, j) <==> Answers(lines, i + 1, j) {
    }
  }

  lemma RequestInFront<Q, R(!new)>(lines: seq<Line<Q, R>>, n: nat, pairs: seq<Step<Q, R>>, places: seq<nat>,
                                   step: Step<Q, R>)
    requires n < |lines| && IsPairingFrom(lines, n + 1, pairs, places) && IsStep(lines, n, step)
    ensures IsPairingFrom(lines, n, [step] + pairs, [n] + places)
  {
    assert places != [] ==> places[0] in places;
    forall i: nat ensures i in [n] + places <==> i < |lines| && RequestFrom(lines, n)(i) {
      assert i in [n] + places <==> i == n || i in places;
    }
  }

  lemma {:induction false} ExchangesArePairing<Q, R(!new)>(lines: seq<Line<Q, R>>, n: nat) returns (places: seq<nat>)
    requires n <= |lines|
    ensures IsPairingFrom(lines, n, Exchanges(lines[n..]), places)
    decreases |lines| - n
  {
    places := [];
    if n < |lines| {
      assert lines[n..][1..] == lines[n + 1..];
      places := ExchangesArePairing(lines, n + 1);
      if lines[n].Request? {
        FirstResultAnswers(lines, n);
        var step := Step(lines[n].request, FirstResult(lines[n + 1..]));
        RequestInFront(lines, n, Exchanges(lines[n + 1..]), places, step);
        places := [n] + places;
      }
    }
  }

  lemma AnswerIsUnique<Q, R(!new)>(lines: seq<Line<Q, R>>, i: nat, result: Option<R>, other: Option<R>)
    requires IsAnswer(lines, i, result) && IsAnswer(lines, i, other)
    ensures result == other
  {
  }

  /** The exchanges are the one pairing of the lines. */
  lemma PairingIff<Q, R(!new)>(lines: seq<Line<Q, R>>, pairs: seq<Step<Q, R>>)
    ensures pairs == Exchanges(lines) <==> exists places :: IsPairing(lines, pairs, places)
  {
    var places := ExchangesArePairing(lines, 0);
    assert lines[0..] == lines;
    assert IsPairing(lines, Exchanges(lines), places);
    forall others | IsPairing(lines, pairs, others) ensures pairs == Exchanges(lines) {
      SamePairing(lines, pairs, others, Exchanges(lines), places);
    }
  }

  lemma SamePairing<Q, R(!new)>(lines: seq<Line<Q, R>>, pairs: seq<Step<Q, R>>, places: seq<nat>,
                                others: seq<Step<Q, R>>, otherPlaces: seq<nat>)
    requires IsPairing(lines, pairs, places) && IsPairing(lines, others, otherPlaces)
    ensures pairs == others
  {
    SelectsIsUnique(|lines|, RequestFrom(lines, 0), places, otherPlaces);
    forall k | 0 <= k < |pairs| ensures pairs[k] == others[k] {
      assert IsStep(lines, places[k], pairs[k]) && IsStep(lines, places[k], others[k]);
      AnswerIsUnique(lines, places[k], pairs[k].result, others[k].result);
    }
  }

  method Pair<Q, R(!new)>(lines: seq<Line<Q, R>>) returns (pairs: seq<Step<Q, R>>)
    ensures pairs == Exchanges(lines)
    ensures exists places :: IsPairing(lines, pairs, places)
  {
    PairingIff(lines, Exchanges(lines));
    pairs := [];
    for n := 0 to |lines|
      invariant Resumed(pairs, lines[n..]) == Exchanges(lines)
    {
      ReadKeepsResumed(pairs, lines[n..]);
      assert lines[n..][1..] == lines[n + 1..];
      if lines[n].Request? {
        pairs := pairs + [Step(lines[n].request, None)];
      } else if lines[n].Result? && pairs != [] && pairs[|pairs| - 1].result.None? {
        pairs := pairs[|pairs| - 1 := Step(pairs[|pairs| - 1].request, Some(lines[n].result))];
      }
    }
    assert lines[|lines|..] == [];
  }

  // ---------------------------------------------------------------- collapsing

  function Noted<S(==)>(out: seq<Entry<S>>, step: S): seq<Entry<S>> {
    var n := |out|;
    if n > 0 && out[n - 1].step == step then out[n - 1 := Entry(step, Repeated)] else out + [Entry(step, Once)]
  }

  function Collapsed<S(==)>(steps: seq<S>): seq<Entry<S>> {
    if steps == [] then [] else Noted(Collapsed(steps[..|steps| - 1]), steps[|steps| - 1])
  }

  method Collapse<S(==)>(steps: seq<S>) returns (out: seq<Entry<S>>)
    ensures out == Collapsed(steps)
  {
    out := [];
    for n := 0 to |steps|
      invariant out == Collapsed(steps[..n])
    {
      if out != [] && out[|out| - 1].step == steps[n] {
        out := out[|out| - 1 := Entry(steps[n], Repeated)];
      } else {
        out := out + [Entry(steps[n], Once)];
      }
      assert steps[..n + 1][..n] == steps[..n];
    }
    assert steps[..|steps|] == steps;
  }

  // ---------------------------------------------------------------- maximal runs

  function Flat<S(==)>(runs: seq<Run<S>>): seq<S> {
    if runs == [] then []
    else Flat(runs[..|runs| - 1]) + seq(runs[|runs| - 1].length, _ => runs[|runs| - 1].step)
  }

  /** The runs spell out the steps, none is empty, and neighbours differ. */
  ghost predicate IsRuns<S>(steps: seq<S>, runs: seq<Run<S>>) {
    && Flat(runs) == steps
    && (forall i :: 0 <= i < |runs| ==> runs[i].length > 0)
    && forall i :: 0 < i < |runs| ==> runs[i - 1].step != runs[i].step
  }

  /** One more step at the end of the runs. */
  function Extended<S(==)>(runs: seq<Run<S>>, step: S): seq<Run<S>> {
    var n := |runs|;
    if n > 0 && runs[n - 1].step == step then runs[n - 1 := Run(step, runs[n - 1].length + 1)]
    else runs + [Run(step, 1)]
  }

  function Runs<S(==)>(steps: seq<S>): seq<Run<S>> {
    if steps == [] then [] else Extended(Runs(steps[..|steps| - 1]), steps[|steps| - 1])
  }

  lemma {:induction false} ExtendedIsRuns<S>(steps: seq<S>, runs: seq<Run<S>>, step: S)
    requires IsRuns(steps, runs)
    ensures IsRuns(steps + [step], Extended(runs, step))
  {
    var n, extended := |runs|, Extended(runs, step);
    if n > 0 && runs[n - 1].step == step {
      assert extended[..n - 1] == runs[..n - 1];
      assert seq(runs[n - 1].length + 1, _ => step) == seq(runs[n - 1].length, _ => step) + [step];
    } else {
      assert extended[..n] == runs;
      assert seq(1, _ => step) == [step];
    }
  }

  lemma {:induction false} RunsAreRuns<S>(steps: seq<S>)
    ensures IsRuns(steps, Runs(steps))
  {
    if steps != [] {
      var n := |steps|;
      RunsAreRuns(steps[..n - 1]);
      ExtendedIsRuns(steps[..n - 1], Runs(steps[..n - 1]), steps[n - 1]);
      assert steps[..n - 1] + [steps[n - 1]] == steps;
    }
  }

  /** The runs of all but the last step. */
  function Shrunk<S(==)>(runs: seq<Run<S>>): seq<Run<S>>
    requires runs != []
  {
    var n := |runs|;
    if runs[n - 1].length > 1 then runs[n - 1 := Run(runs[n - 1].step, runs[n - 1].length - 1)] else runs[..n - 1]
  }

  lemma ShrunkIsRuns<S>(steps: seq<S>, runs: seq<Run<S>>)
    requires IsRuns(steps, runs) && runs != []
    ensures steps != [] && IsRuns(steps[..|steps| - 1], Shrunk(runs))
    ensures runs == Extended(Shrunk(runs), steps[|steps| - 1])
  {
    var n := |runs|;
    var last := runs[n - 1];
    var tail := seq(last.length, _ => last.step);
    assert tail[last.length - 1] == last.step;
    assert steps == Flat(runs[..n - 1]) + tail;
    if last.length > 1 {
      assert Shrunk(runs)[..n - 1] == runs[..n - 1];
      assert tail[..last.length - 1] == seq(last.length - 1, _ => last.step);
    } else {
      assert steps[..|steps| - 1] == Flat(runs[..n - 1]);
    }
  }

  /** A sequence has one decomposition into maximal runs. */
  lemma {:induction false} RunsAreUnique<S>(steps: seq<S>, runs: seq<Run<S>>)
    requires IsRuns(steps, runs)
    ensures runs == Runs(steps)
    decreases |steps|
  {
    if runs == [] {
      assert steps == [];
    } else {
      ShrunkIsRuns(steps, runs);
      RunsAreUnique(steps[..|steps| - 1], Shrunk(runs));
    }
  }

  // ---------------------------------------------------------------- the canonical form

  function Noticed<S(==)>(run: Run<S>): Entry<S> {
    Entry(run.step, if run.length == 1 then Once else Repeated)
  }

  function Summary<S(==)>(runs: seq<Run<S>>): seq<Entry<S>> {
    seq(|runs|, i requires 0 <= i < |runs| => Noticed(runs[i]))
  }

  lemma SummaryOfExtended<S>(runs: seq<Run<S>>, step: S)
    requires forall i :: 0 <= i < |runs| ==> runs[i].length >= 1
    ensures Summary(Extended(runs, step)) == Noted(Summary(runs), step)
  {
  }

  /** Collapsing keeps, of each maximal run, its step and whether it was longer than one. */
  lemma {:induction false} CollapsedIsSummary<S>(steps: seq<S>)
    ensures Collapsed(steps) == Summary(Runs(steps))
  {
    if steps != [] {
      var n := |steps|;
      CollapsedIsSummary(steps[..n - 1]);
      RunsAreRuns(steps[..n - 1]);
      SummaryOfExtended(Runs(steps[..n - 1]), steps[n - 1]);
    }
  }

  /** The whole transcript of a log. */
  method Transcribe<Q(==), R(==,!new)>(lines: seq<Line<Q, R>>) returns (out: seq<Entry<Step<Q, R>>>)
    ensures out == Collapsed(Exchanges(lines))
    ensures exists pairs, places, runs :: IsPairing(lines, pairs, places) && IsRuns(pairs, runs) && out == Summary(runs)
  {
    var pairs := Pair(lines);
    out := Collapse(pairs);
    CollapsedIsSummary(pairs);
    RunsAreRuns(pairs);
    ghost var places :| IsPairing(lines, pairs, places);
    assert IsPairing(lines, pairs, places) && IsRuns(pairs, Runs(pairs)) && out == Summary(Runs(pairs));
  }

  /** Same steps, run by run, and the same answer to "longer than one?". */
  ghost predicate Agree<S>(runs: seq<Run<S>>, others: seq<Run<S>>) {
    && |runs| == |others|
    && forall i :: 0 <= i < |runs| ==>
         runs[i].step == others[i].step && (runs[i].length == 1 <==> others[i].length == 1)
  }

  lemma SummariesAgree<S>(runs: seq<Run<S>>, others: seq<Run<S>>)
    ensures Summary(runs) == Summary(others) <==> Agree(runs, others)
  {
    if Summary(runs) == Summary(others) {
      assert |Summary(runs)| == |Summary(others)|;
      forall i | 0 <= i < |runs|
        ensures runs[i].step == others[i].step && (runs[i].length == 1 <==> others[i].length == 1)
      {
        assert Summary(runs)[i] == Summary(others)[i];
      }
    }
  }

  /** Two sequences have the same transcript exactly when their maximal runs agree. */
  lemma SameTranscriptIff<S>(steps: seq<S>, others: seq<S>, runs: seq<Run<S>>, otherRuns: seq<Run<S>>)
    requires IsRuns(steps, runs) && IsRuns(others, otherRuns)
    ensures Collapsed(steps) == Collapsed(others) <==> Agree(runs, otherRuns)
  {
    RunsAreUnique(steps, runs);
    RunsAreUnique(others, otherRuns);
    CollapsedIsSummary(steps);
    CollapsedIsSummary(others);
    SummariesAgree(runs, otherRuns);
  }

  predicate NoRepeats<S(==)>(out: seq<Entry<S>>) {
    forall i :: 0 < i < |out| ==> out[i - 1].step != out[i].step
  }

  /** No two neighbours of a transcript share a step. */
  lemma {:induction false} CollapsedHasNoRepeats<S>(steps: seq<S>)
    ensures NoRepeats(Collapsed(steps))
  {
    CollapsedIsSummary(steps);
    RunsAreRuns(steps);
  }

  /** The shortest sequence with this transcript: each step once or twice. */
  function Shortest<S(==)>(out: seq<Entry<S>>): seq<Run<S>> {
    seq(|out|, i requires 0 <= i < |out| => Run(out[i].step, if out[i].count.Once? then 1 else 2))
  }

  /** Collapsing the expansion of a transcript gives it back. */
  lemma CollapseOfExpansion<S>(out: seq<Entry<S>>)
    requires NoRepeats(out)
    ensures Collapsed(Flat(Shortest(out))) == out
  {
    var runs := Shortest(out);
    assert IsRuns(Flat(runs), runs);
    RunsAreUnique(Flat(runs), runs);
    CollapsedIsSummary(Flat(runs));
    assert Summary(runs) == out;
  }

  /** A list of entries is the transcript of something exactly when it has no repeats. */
  lemma TranscriptsAreExactlyNoRepeats<S>(out: seq<Entry<S>>)
    ensures NoRepeats(out) <==> exists steps :: Collapsed(steps) == out
  {
    if NoRepeats(out) {
      CollapseOfExpansion(out);
    }
    if steps :| Collapsed(steps) == out {
      CollapsedHasNoRepeats(steps);
    }
  }
}
