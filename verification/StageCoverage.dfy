/**
 One comparison stage: the cases it executes, the coverage they accumulate, and
 the gate that a conversion helper has to pass.
 */
module StageCoverage {
  import opened Images
  import opened Disassembly
  import opened Coverage

  /**
   What one case did. Each run is given by its trace; its recorded instructions
   and edges are `Visited` and `Pairs` of it. A case that raises may leave the
   trace of the image that failed.
   */
  datatype Outcome =
    | Compared(original: Option<seq<int>>, modified: Option<seq<int>>)
    | Raised(ofOriginal: bool, evidence: Option<seq<int>>)

  class Stage {
    var passed: bool
    var cases: nat
    var originalInstructions: set<int>
    var originalEdges: set<Edge>
    var modifiedInstructions: set<int>
    var modifiedEdges: set<Edge>
    var coverage: Option<Report>
    ghost var history: History

    /** Everything recorded comes from the cases so far, and passing means that none of them raised. */
    ghost predicate Valid()
      reads this
    {
      && originalInstructions == AllVisited(RunsOf(history, true)) && originalEdges == AllPairs(RunsOf(history, true))
      && modifiedInstructions == AllVisited(RunsOf(history, false)) && modifiedEdges == AllPairs(RunsOf(history, false))
      && (passed ==> NoneRaised(history))
      && cases == Compares(history)
    }

    constructor ()
      ensures Valid() && passed && history == NoCases && coverage == None
    {
      passed, cases, coverage, history := true, 0, None, NoCases;
      originalInstructions, originalEdges, modifiedInstructions, modifiedEdges := {}, {}, {}, {};
    }

    /** A failing case keeps its evidence but fails the stage for good; it is not counted. */
    method Case(outcome: Outcome)
      requires Valid()
      modifies this
      ensures Valid() && history == After(old(history), outcome) && coverage == old(coverage)
      ensures passed == (old(passed) && outcome.Compared?)
    {
      match outcome {
        case Compared(original, modified) =>
          Record(true, original);
          Record(false, modified);
          cases := cases + 1;
        case Raised(ofOriginal, evidence) =>
          passed := false;
          Record(ofOriginal, evidence);
      }
      history := After(history, outcome);
    }

    /** Adds what one run of one image recorded. */
    method Record(ofOriginal: bool, run: Option<seq<int>>)
      modifies `originalInstructions, `originalEdges, `modifiedInstructions, `modifiedEdges
      ensures originalInstructions == old(originalInstructions) + VisitedIn(run, ofOriginal)
      ensures originalEdges == old(originalEdges) + PairsIn(run, ofOriginal)
      ensures modifiedInstructions == old(modifiedInstructions) + VisitedIn(run, !ofOriginal)
      ensures modifiedEdges == old(modifiedEdges) + PairsIn(run, !ofOriginal)
    {
      if run.Some? && ofOriginal {
        originalInstructions, originalEdges := originalInstructions + Visited(run.value),
          originalEdges + Pairs(run.value);
      } else if run.Some? {
        modifiedInstructions, modifiedEdges := modifiedInstructions + Visited(run.value),
          modifiedEdges + Pairs(run.value);
      }
    }

    /**
     The end of a conversion stage: the generated function is compared with what
     the cases recorded, and only complete coverage lets the stage pass.
     */
    method FinishConversion(data: seq<byte>, decoder: Decoder, root: nat)
      requires Valid()
      modifies this
      ensures Valid() && history == old(history)
      ensures passed <==> old(passed) && FullyTaken(Function(data, decoder, root), history)
      ensures passed <==> old(passed) && TakenByRuns(Function(data, decoder, root), history)
    {
      FullyTakenIff(Function(data, decoder, root), history);
      coverage := Measure(data, decoder, root, modifiedEdges, modifiedInstructions, history);
      if !Complete(coverage) && passed {
        passed := false;
      }
    }
  }

  /** A fresh execution, given what the stage recorded, names what the recording misses. */
  method Measure(data: seq<byte>, decoder: Decoder, root: nat, edges: set<Edge>, instructions: set<int>,
                 ghost history: History)
    returns (coverage: Option<Report>)
    requires edges == AllPairs(RunsOf(history, false)) && instructions == AllVisited(RunsOf(history, false))
    ensures Complete(coverage) <==> FullyTaken(Function(data, decoder, root), history)
  {
    var execution := new Execution(true);
    execution.edges, execution.instructions := edges, instructions;
    coverage := execution.Missing(data, decoder, [root]);
    assert IsReport(coverage, data, decoder, [root], execution.edges, execution.instructions);
    assert execution.edges == edges && execution.instructions == instructions;
    CompleteMeansTaken(data, decoder, root, history, coverage, edges, instructions);
  }

  function VisitedIn(run: Option<seq<int>>, here: bool): set<int> {
    if here && run.Some? then Visited(run.value) else {}
  }

  function PairsIn(run: Option<seq<int>>, here: bool): set<Edge> {
    if here && run.Some? then Pairs(run.value) else {}
  }

  /** The function at `f` is accepted, and the runs of the modified image took every edge and instruction of it. */
  ghost predicate FullyTaken(f: Function, history: History) {
    && Walkable(f)
    && Required(f, Body(f)) <= AllPairs(RunsOf(history, false))
    && Body(f) <= AllVisited(RunsOf(history, false))
  }

  predicate Complete(coverage: Option<Report>) {
    coverage.Some? && coverage.value.uncovered == {} && coverage.value.unvisited == {}
  }

  lemma CompleteMeansTaken(data: seq<byte>, decoder: Decoder, root: nat, history: History, coverage: Option<Report>,
                           edges: set<Edge>, instructions: set<int>)
    requires IsReport(coverage, data, decoder, [root], edges, instructions)
    requires edges == AllPairs(RunsOf(history, false)) && instructions == AllVisited(RunsOf(history, false))
    ensures Complete(coverage) <==> FullyTaken(Function(data, decoder, root), history)
  {
    assert root in [root];
    if coverage.Some? {
      SingleRoot(data, decoder, root);
    }
  }

  lemma SingleRoot(data: seq<byte>, decoder: Decoder, root: nat)
    requires Walkable(Function(data, decoder, root))
    ensures AllWalkable(data, decoder, [root])
    ensures AllRequired(data, decoder, [root]) ==
      Required(Function(data, decoder, root), Body(Function(data, decoder, root)))
    ensures AllReachable(data, decoder, [root]) == Body(Function(data, decoder, root))
  {
    assert [root][..0] == [];
  }

  /** The run a case recorded of one image, if any. */
  function RunOf(o: Outcome, ofOriginal: bool): Option<seq<int>> {
    match o
    case Compared(original, modified) => if ofOriginal then original else modified
    case Raised(image, evidence) => if image == ofOriginal then evidence else None
  }

  /** The cases so far, the latest outermost. */
  datatype History = NoCases | After(before: History, outcome: Outcome)

  /** Traces of one image over all cases. */
  ghost function RunsOf(h: History, ofOriginal: bool): Runs {
    if h.NoCases? then NoRuns
    else if RunOf(h.outcome, ofOriginal).None? then RunsOf(h.before, ofOriginal)
    else Then(RunsOf(h.before, ofOriginal), RunOf(h.outcome, ofOriginal).value)
  }

  ghost function Compares(h: History): nat {
    if h.NoCases? then 0 else Compares(h.before) + if h.outcome.Compared? then 1 else 0
  }

  ghost predicate NoneRaised(h: History) {
    h.After? ==> h.outcome.Compared? && NoneRaised(h.before)
  }

  ghost predicate HasCase(h: History, o: Outcome) {
    h.After? && (o == h.outcome || HasCase(h.before, o))
  }

  /** A run of the modified image is the second one of a compared case, or what a failure of that image left. */
  ghost predicate IsModifiedRun(h: History, run: seq<int>) {
    || (exists original: Option<seq<int>> :: HasCase(h, Compared(original, Some(run))))
    || HasCase(h, Raised(false, Some(run)))
  }

  /** A run of the original image is the first one, or what its failure left. */
  ghost predicate IsOriginalRun(h: History, run: seq<int>) {
    || (exists modified: Option<seq<int>> :: HasCase(h, Compared(Some(run), modified)))
    || HasCase(h, Raised(true, Some(run)))
  }

  lemma {:induction false} ModifiedRunsAreRecorded(h: History, run: seq<int>)
    ensures InHistory(run, RunsOf(h, false)) <==> IsModifiedRun(h, run)
  {
    if h.After? {
      ModifiedRunsAreRecorded(h.before, run);
      if h.outcome.Compared? {
        assert HasCase(h, Compared(h.outcome.original, h.outcome.modified));
      }
    }
  }

  lemma {:induction false} OriginalRunsAreRecorded(h: History, run: seq<int>)
    ensures InHistory(run, RunsOf(h, true)) <==> IsOriginalRun(h, run)
  {
    if h.After? {
      OriginalRunsAreRecorded(h.before, run);
      if h.outcome.Compared? {
        assert HasCase(h, Compared(h.outcome.original, h.outcome.modified));
      }
    }
  }

  /**
   The gate in terms of runs: no run of the generated function meets anything refused, and each edge it can take
   out of a conditional, and each instruction it can meet, is in some case's run of the modified image.
   */
  ghost predicate TakenByRuns(f: Function, h: History) {
    && NeverRefused(f)
    && (forall e :: Branches(f, e) ==>
          exists run, i: nat :: IsModifiedRun(h, run) && i + 1 < |run| && run[i] == e.0 && run[i + 1] == e.1)
    && forall at :: IsMet(f, at) ==> exists run :: IsModifiedRun(h, run) && at in run
  }

  lemma FullyTakenIff(f: Function, history: History)
    ensures FullyTaken(f, history) <==> TakenByRuns(f, history)
  {
    var runs := RunsOf(history, false);
    WalkableIff(f);
    forall run ensures InHistory(run, runs) <==> IsModifiedRun(history, run) {
      ModifiedRunsAreRecorded(history, run);
    }
    forall e ensures e in AllPairs(runs) <==> Took(runs, e) {
      TookIff(runs, e);
    }
    forall at ensures at in AllVisited(runs) <==> Ran(runs, at) {
      RanIff(runs, at);
    }
    if Walkable(f) {
      WalkMeans(f, Body(f), Required(f, Body(f)));
    }
  }

  /**
   In a conversion stage that passes, each edge of each conditional that the
   generated function can take was taken by two consecutive instructions of some
   case's run of the modified image.
   */
  lemma PassedEdgeWasTaken(f: Function, history: History, e: Edge) returns (run: seq<int>, i: nat)
    requires FullyTaken(f, history) && Branches(f, e)
    ensures IsModifiedRun(history, run) && i + 1 < |run| && run[i] == e.0 && run[i + 1] == e.1
  {
    FullyTakenIff(f, history);
    run, i :| IsModifiedRun(history, run) && i + 1 < |run| && run[i] == e.0 && run[i + 1] == e.1;
  }
}
