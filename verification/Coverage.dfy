/**
 Measured branch coverage of generated code: the static control flow of a
 generated function, the edges an execution records, and their comparison.
 */
module Coverage {
  import opened Images
  import opened Disassembly
  import opened Reachability

  type Edge = (int, int)

  const BOUND := 0x2000

  datatype Function = Function(data: seq<byte>, decoder: Decoder, root: nat)

  /** Encodings an ARMv5 core accepts in Thumb state; a call takes two halfwords. */
  predicate Thumb1Instruction(opcode: seq<byte>) {
    var first := Half(opcode, 0);
    if first / 0x800 in {0x1d, 0x1e, 0x1f} then
      |opcode| >= 4 && first / 0x800 == 0x1e && Half(opcode, 2) / 0x800 in {0x1d, 0x1f}
    else if first / 0x1000 == 0xb then first / 0x100 in {0xb0, 0xb4, 0xb5, 0xbc, 0xbd, 0xbe}
    else first / 0x100 !in {0xde, 0xdf}
  }

  predicate IsConditional(m: Mnemonic) {
    m.BCond? || m.Cbz? || m.Cbnz?
  }

  predicate InBounds(f: Function, at: int) {
    f.root <= at < Min(|f.data|, f.root + BOUND)
  }

  function LastImmediate(i: Insn): Option<int> {
    if i.operands != [] && i.operands[|i.operands| - 1].Imm? then Some(i.operands[|i.operands| - 1].value) else None
  }

  /** The instruction at a reachable address; None where the walk refuses it. */
  function Fetch(f: Function, at: int): Option<Insn> {
    if !InBounds(f, at) then None
    else if DecodeAt(f.decoder, f.data, at).None? || !Thumb1Instruction(Slice(f.data, at, at + 4)) then None
    else
      var i := DecodeAt(f.decoder, f.data, at).value;
      if (IsConditional(i.mnemonic) || i.mnemonic.B? || i.mnemonic.BWide?) && LastImmediate(i).None? then None
      else if i.mnemonic.Udf? || i.mnemonic.Svc? || i.mnemonic.Bkpt? then None
      else Some(i)
  }

  /** Both ways out of a conditional branch, and nothing for another instruction. */
  function Out(f: Function, at: int): set<Edge> {
    if Fetch(f, at).Some? && IsConditional(Fetch(f, at).value.mnemonic) then
      var i := Fetch(f, at).value;
      {(at, LastImmediate(i).value), (at, at + |i.bytes|)}
    else {}
  }

  function Next(f: Function): int -> set<int> {
    at =>
      if Fetch(f, at).None? then {}
      else
        var i := Fetch(f, at).value;
        if IsConditional(i.mnemonic) then {LastImmediate(i).value, at + |i.bytes|}
        else if i.mnemonic.B? || i.mnemonic.BWide? then {LastImmediate(i).value}
        else if i.mnemonic.Bx? || (i.mnemonic.Pop? && i.mentionsPc) then {}
        else {at + |i.bytes|}
  }

  /** `seen` is what the root reaches, and every instruction in it is accepted. */
  ghost predicate IsBody(f: Function, seen: set<int>) {
    Reaches({f.root}, Next(f), seen) && forall at :: at in seen ==> Fetch(f, at).Some?
  }

  ghost function Required(f: Function, seen: set<int>): set<Edge> {
    set at, e | at in seen && e in Out(f, at) :: e
  }

  /** The loop invariant of the walk. */
  ghost predicate Walking(f: Function, seen: set<int>, queue: seq<int>, required: set<Edge>) {
    && Frontier({f.root}, Next(f), seen, Elements(queue))
    && Accepted(f, seen)
    && required == Required(f, seen)
    && |seen| <= BOUND
  }

  ghost predicate Accepted(f: Function, seen: set<int>) {
    forall at :: at in seen ==> Fetch(f, at).Some?
  }

  lemma RequiredOneMore(f: Function, seen: set<int>, at: int)
    ensures Required(f, seen + {at}) == Required(f, seen) + Out(f, at)
  {
    forall e | e in Required(f, seen) + Out(f, at) ensures e in Required(f, seen + {at}) {
      if e in Out(f, at) {
        assert at in seen + {at};
      } else {
        var a :| a in seen && e in Out(f, a);
        assert a in seen + {at};
      }
    }
  }

  lemma SkipSeen(f: Function, seen: set<int>, queue: seq<int>, required: set<Edge>)
    requires Walking(f, seen, queue, required) && queue != [] && queue[0] in seen
    ensures Walking(f, seen, queue[1..], required)
  {
    AdvanceQueue({f.root}, Next(f), seen, queue, []);
    assert queue[1..] + [] == queue[1..];
  }

  lemma WalkOn(f: Function, seen: set<int>, queue: seq<int>, required: set<Edge>, pushed: seq<int>)
    requires Walking(f, seen, queue, required) && queue != [] && queue[0] !in seen
    requires Fetch(f, queue[0]).Some? && Elements(pushed) == Next(f)(queue[0])
    ensures Walking(f, seen + {queue[0]}, queue[1..] + pushed, required + Out(f, queue[0]))
    ensures |seen + {queue[0]}| == |seen| + 1
  {
    AdvanceQueue({f.root}, Next(f), seen, queue, pushed);
    RequiredOneMore(f, seen, queue[0]);
    SubsetSize(seen + {queue[0]}, Points(f.root, f.root + BOUND));
  }

  lemma WalkFails(f: Function, seen: set<int>, queue: seq<int>, required: set<Edge>)
    requires Walking(f, seen, queue, required) && queue != []
    requires Fetch(f, queue[0]).None?
    ensures forall body :: !IsBody(f, body)
  {
    assert queue[0] in Elements(queue);
  }

  lemma WalkEnds(f: Function, seen: set<int>, required: set<Edge>)
    requires Walking(f, seen, [], required)
    ensures IsBody(f, seen) && required == Required(f, seen)
  {
    EmptyFrontier({f.root}, Next(f), seen);
  }

  lemma BodyIsUnique(f: Function, seen: set<int>, body: set<int>)
    requires IsBody(f, seen) && IsBody(f, body)
    ensures seen == body
  {
  }

  /** The body of the loop for an accepted instruction: edges it requires and addresses it queues. */
  method Expand(f: Function, at: int) returns (edges: set<Edge>, pushed: seq<int>)
    requires Fetch(f, at).Some?
    ensures edges == Out(f, at) && Elements(pushed) == Next(f)(at)
  {
    var i := Fetch(f, at).value;
    var end := at + |i.bytes|;
    if IsConditional(i.mnemonic) {
      var target := LastImmediate(i).value;
      edges, pushed := {(at, target), (at, end)}, [target, end];
    } else if i.mnemonic.B? || i.mnemonic.BWide? {
      edges, pushed := {}, [LastImmediate(i).value];
    } else if i.mnemonic.Bx? || (i.mnemonic.Pop? && i.mentionsPc) {
      edges, pushed := {}, [];
    } else {
      edges, pushed := {}, [end];
    }
  }

  // ---------------------------------------------------------------- where control can go

  predicate IsTarget(i: Insn, to: int) {
    i.operands != [] && i.operands[|i.operands| - 1] == Imm(to)
  }

  predicate Leaves(i: Insn) {
    i.mnemonic.Bx? || (i.mnemonic.Pop? && i.mentionsPc)
  }

  /** Control may go from `at` to `to`; a call comes back, and an exit goes nowhere in the function. */
  predicate Goes(f: Function, at: int, to: int) {
    && 0 <= at && DecodeAt(f.decoder, f.data, at).Some?
    && var i := DecodeAt(f.decoder, f.data, at).value;
       if IsConditional(i.mnemonic) then IsTarget(i, to) || to == at + |i.bytes|
       else if i.mnemonic.B? || i.mnemonic.BWide? then IsTarget(i, to)
       else !Leaves(i) && to == at + |i.bytes|
  }

  /** What no generated function may hold at a place where control can get. */
  ghost predicate Refused(f: Function, at: int) {
    || !(f.root <= at < |f.data| && at < f.root + BOUND)
    || DecodeAt(f.decoder, f.data, at).None? || !Thumb1Instruction(Slice(f.data, at, at + 4))
    || var i := DecodeAt(f.decoder, f.data, at).value;
       || ((IsConditional(i.mnemonic) || i.mnemonic.B? || i.mnemonic.BWide?) && forall to :: !IsTarget(i, to))
       || i.mnemonic.Udf? || i.mnemonic.Svc? || i.mnemonic.Bkpt?
  }

  /** A run of the function from its root. */
  predicate IsRun(f: Function, run: seq<int>) {
    && run != [] && run[0] == f.root
    && forall i :: 0 <= i < |run| - 1 ==> Goes(f, run[i], run[i + 1])
  }

  ghost predicate IsMet(f: Function, at: int) {
    exists run :: IsRun(f, run) && run[|run| - 1] == at
  }

  ghost predicate NeverRefused(f: Function) {
    forall at :: IsMet(f, at) ==> !Refused(f, at)
  }

  /** Some run ends by going out of a conditional branch along `e`. */
  ghost predicate Branches(f: Function, e: Edge) {
    && 0 <= e.0 && DecodeAt(f.decoder, f.data, e.0).Some?
    && IsConditional(DecodeAt(f.decoder, f.data, e.0).value.mnemonic)
    && exists run :: IsRun(f, run) && |run| > 1 && run[|run| - 2] == e.0 && run[|run| - 1] == e.1
  }

  lemma LastImmediateIsTarget(i: Insn)
    ensures LastImmediate(i).None? <==> forall to :: !IsTarget(i, to)
    ensures forall to :: IsTarget(i, to) <==> LastImmediate(i) == Some(to)
  {
    if LastImmediate(i).Some? {
      assert IsTarget(i, LastImmediate(i).value);
    }
  }

  lemma FetchFailsIff(f: Function, at: int)
    ensures Fetch(f, at).None? <==> Refused(f, at)
  {
    if InBounds(f, at) && DecodeAt(f.decoder, f.data, at).Some? {
      LastImmediateIsTarget(DecodeAt(f.decoder, f.data, at).value);
    }
  }

  lemma NextIsGoes(f: Function, at: int, to: int)
    requires Fetch(f, at).Some?
    ensures to in Next(f)(at) <==> Goes(f, at, to)
  {
    LastImmediateIsTarget(Fetch(f, at).value);
  }

  lemma PathIsRun(f: Function, path: seq<int>)
    requires IsPath({f.root}, Next(f), path)
    ensures IsRun(f, path)
  {
    forall i | 0 <= i < |path| - 1 ensures Goes(f, path[i], path[i + 1]) {
      assert path[i + 1] in Next(f)(path[i]);
      NextIsGoes(f, path[i], path[i + 1]);
    }
  }

  lemma {:induction false} RunStaysInside(f: Function, v: set<int>, run: seq<int>, n: nat)
    requires f.root in v && Closed(Next(f), v) && IsRun(f, run) && n < |run|
    requires forall at :: at in v ==> Fetch(f, at).Some?
    ensures run[n] in v
  {
    if n > 0 {
      RunStaysInside(f, v, run, n - 1);
      assert Goes(f, run[n - 1], run[n - 1 + 1]);
      NextIsGoes(f, run[n - 1], run[n]);
      assert Next(f)(run[n - 1]) <= v;
    }
  }

  lemma RunOn(f: Function, run: seq<int>, to: int)
    requires IsRun(f, run) && Goes(f, run[|run| - 1], to)
    ensures IsRun(f, run + [to])
  {
  }

  /** What the walk visits is what runs meet, and none of it is refused. */
  lemma BodyIsMet(f: Function, seen: set<int>)
    requires IsBody(f, seen)
    ensures NeverRefused(f) && forall at :: at in seen <==> IsMet(f, at)
  {
    forall at | at in seen ensures IsMet(f, at) && !Refused(f, at) {
      FetchFailsIff(f, at);
      ReachedIffOnPath({f.root}, Next(f), seen);
      var path :| IsPath({f.root}, Next(f), path) && path[|path| - 1] == at;
      PathIsRun(f, path);
    }
    forall at | IsMet(f, at) ensures at in seen {
      var run :| IsRun(f, run) && run[|run| - 1] == at;
      RunStaysInside(f, seen, run, |run| - 1);
    }
  }

  lemma RootIsMet(f: Function)
    ensures IsMet(f, f.root)
  {
    var run := [f.root];
    assert IsRun(f, run) && run[|run| - 1] == f.root;
  }

  lemma GoesToMet(f: Function, at: int, to: int)
    requires IsMet(f, at) && Goes(f, at, to)
    ensures IsMet(f, to)
  {
    var run :| IsRun(f, run) && run[|run| - 1] == at;
    RunOn(f, run, to);
    var more := run + [to];
    assert IsRun(f, more) && more[|more| - 1] == to;
  }

  /** What runs meet, when they meet nothing refused, is a body. */
  lemma MetIsBody(f: Function, met: set<int>)
    requires NeverRefused(f) && forall at :: at in met <==> IsMet(f, at)
    ensures IsBody(f, met)
  {
    RootIsMet(f);
    forall at | at in met ensures Fetch(f, at).Some? && Next(f)(at) <= met {
      FetchFailsIff(f, at);
      forall to | to in Next(f)(at) ensures to in met {
        NextIsGoes(f, at, to);
        GoesToMet(f, at, to);
      }
    }
    forall c: set<int> | {f.root} <= c && Closed(Next(f), c) ensures met <= c {
      MetIsLeast(f, met, c);
    }
    assert {f.root} <= met;
    assert Closed(Next(f), met);
    assert Reaches({f.root}, Next(f), met);
  }

  lemma MetIsLeast(f: Function, met: set<int>, c: set<int>)
    requires NeverRefused(f) && forall at :: at in met <==> IsMet(f, at)
    requires f.root in c && Closed(Next(f), c)
    ensures met <= c
  {
    forall at | at in met ensures at in c {
      var run :| IsRun(f, run) && run[|run| - 1] == at;
      MetStaysInside(f, c, run, |run| - 1);
    }
  }

  lemma {:induction false} MetStaysInside(f: Function, v: set<int>, run: seq<int>, n: nat)
    requires f.root in v && Closed(Next(f), v) && IsRun(f, run) && n < |run| && NeverRefused(f)
    ensures run[n] in v
  {
    if n > 0 {
      MetStaysInside(f, v, run, n - 1);
      PrefixIsRun(f, run, n);
      FetchFailsIff(f, run[n - 1]);
      NextIsGoes(f, run[n - 1], run[n]);
      assert Next(f)(run[n - 1]) <= v;
    }
  }

  lemma PrefixIsRun(f: Function, run: seq<int>, n: nat)
    requires IsRun(f, run) && 0 < n < |run|
    ensures IsMet(f, run[n - 1]) && Goes(f, run[n - 1], run[n])
  {
    assert Goes(f, run[n - 1], run[n - 1 + 1]);
    assert IsRun(f, run[..n]) && run[..n][|run[..n]| - 1] == run[n - 1];
  }

  /** The function is accepted exactly when no run of it meets anything refused. */
  lemma WalkableIff(f: Function)
    ensures (exists body :: IsBody(f, body)) <==> NeverRefused(f)
  {
    if body :| IsBody(f, body) {
      BodyIsMet(f, body);
    }
    if NeverRefused(f) {
      var met := set at | at in Points(f.root, f.root + BOUND) && IsMet(f, at);
      forall at | IsMet(f, at) ensures at in met {
        assert !Refused(f, at);
      }
      MetIsBody(f, met);
    }
  }

  lemma EdgesStartAtTheirConditional(f: Function, seen: set<int>, e: Edge)
    ensures e in Required(f, seen) <==> e.0 in seen && e in Out(f, e.0)
  {
  }

  /** The edges out of an accepted instruction lead where control can go from a conditional branch. */
  lemma OutIsGoes(f: Function, e: Edge)
    requires Fetch(f, e.0).Some?
    ensures e in Out(f, e.0) <==> IsConditional(DecodeAt(f.decoder, f.data, e.0).value.mnemonic) && Goes(f, e.0, e.1)
  {
    LastImmediateIsTarget(Fetch(f, e.0).value);
  }

  lemma TakenIff(f: Function, e: Edge)
    ensures (exists run :: IsRun(f, run) && |run| > 1 && run[|run| - 2] == e.0 && run[|run| - 1] == e.1) <==>
            IsMet(f, e.0) && Goes(f, e.0, e.1)
  {
    if run :| IsRun(f, run) && |run| > 1 && run[|run| - 2] == e.0 && run[|run| - 1] == e.1 {
      PrefixIsRun(f, run, |run| - 1);
    }
    if IsMet(f, e.0) && Goes(f, e.0, e.1) {
      var run :| IsRun(f, run) && run[|run| - 1] == e.0;
      RunOn(f, run, e.1);
      var more := run + [e.1];
      assert IsRun(f, more) && more[|more| - 2] == e.0 && more[|more| - 1] == e.1;
    }
  }

  /** An edge is required exactly when some run goes along it out of a conditional branch; both its ends are visited. */
  lemma RequiredIsTaken(f: Function, seen: set<int>, e: Edge)
    requires IsBody(f, seen)
    ensures e in Required(f, seen) <==> Branches(f, e)
    ensures e in Required(f, seen) ==> e.0 in seen && e.1 in seen
  {
    BodyIsMet(f, seen);
    EdgesStartAtTheirConditional(f, seen, e);
    TakenIff(f, e);
    if e.0 in seen {
      OutIsGoes(f, e);
      if Goes(f, e.0, e.1) {
        GoesToMet(f, e.0, e.1);
      }
    }
  }

  lemma WalkMeans(f: Function, seen: set<int>, required: set<Edge>)
    requires IsBody(f, seen) && required == Required(f, seen)
    ensures forall at :: at in seen <==> IsMet(f, at)
    ensures forall e :: e in required <==> Branches(f, e)
  {
    BodyIsMet(f, seen);
    forall e ensures e in required <==> Branches(f, e) {
      RequiredIsTaken(f, seen, e);
    }
  }

  /**
   The walk. It succeeds exactly when every reachable instruction is accepted,
   and then requires both edges of every reachable conditional and no other edge.
   */
  method BranchRequirements(f: Function) returns (required: Option<set<Edge>>, seen: set<int>)
    ensures required.Some? <==> exists body :: IsBody(f, body)
    ensures required.Some? ==> IsBody(f, seen) && required.value == Required(f, seen)
    ensures required.Some? <==> NeverRefused(f)
    ensures required.Some? ==> (forall at :: at in seen <==> IsMet(f, at)) &&
                               forall e :: e in required.value <==> Branches(f, e)
  {
    WalkableIff(f);
    var queue, edges := [f.root], {};
    seen := {};
    while queue != []
      invariant Walking(f, seen, queue, edges)
      decreases BOUND - |seen|, |queue|
    {
      var at := queue[0];
      if at in seen {
        SkipSeen(f, seen, queue, edges);
        queue := queue[1..];
        continue;
      }
      if Fetch(f, at).None? {
        WalkFails(f, seen, queue, edges);
        return None, {};
      }
      var out, pushed := Expand(f, at);
      WalkOn(f, seen, queue, edges, pushed);
      queue, seen, edges := queue[1..] + pushed, seen + {at}, edges + out;
    }
    WalkEnds(f, seen, edges);
    required := Some(edges);
    WalkMeans(f, seen, edges);
  }

  /** An edge is required exactly when some path from the root ends at its conditional. */
  lemma RequiredMeansOnPath(f: Function, seen: set<int>, e: Edge)
    requires IsBody(f, seen)
    ensures e in Required(f, seen) <==> OnPath({f.root}, Next(f), e.0) && e in Out(f, e.0)
  {
    ReachedIffOnPath({f.root}, Next(f), seen);
    EdgesStartAtTheirConditional(f, seen, e);
  }

  // ---------------------------------------------------------------- recording

  /** Edges between consecutive instructions of one run. */
  function Pairs(run: seq<int>): (r: set<Edge>) {
    set i | 0 <= i < |run| - 1 :: EdgeAt(run, i)
  }

  function EdgeAt(run: seq<int>, i: nat): Edge
    requires i + 1 < |run|
  {
    (run[i], run[i + 1])
  }

  function Visited(run: seq<int>): set<int> {
    set i | 0 <= i < |run| :: run[i]
  }

  lemma PairsOneMore(run: seq<int>, at: int)
    ensures Pairs(run + [at]) == Pairs(run) + if run == [] then {} else {(run[|run| - 1], at)}
  {
    var more := run + [at];
    var both := Pairs(run) + if run == [] then {} else {(run[|run| - 1], at)};
    forall e | e in both ensures e in Pairs(more) {
      if e in Pairs(run) {
        var i :| 0 <= i < |run| - 1 && EdgeAt(run, i) == e;
        assert EdgeAt(more, i) == e;
      } else {
        assert EdgeAt(more, |run| - 1) == e;
      }
    }
    forall e | e in Pairs(more) ensures e in both {
      var i :| 0 <= i < |more| - 1 && EdgeAt(more, i) == e;
      assert i < |run| - 1 ==> EdgeAt(run, i) == e;
    }
  }

  lemma VisitedOneMore(run: seq<int>, at: int)
    ensures Visited(run + [at]) == Visited(run) + {at}
  {
    var more := run + [at];
    assert more[|run|] == at;
    assert forall i :: 0 <= i < |run| ==> more[i] == run[i];
  }

  /** A history of runs, the latest outermost. */
  datatype Runs = NoRuns | Then(before: Runs, run: seq<int>)

  ghost function AllPairs(runs: Runs): set<Edge> {
    if runs.NoRuns? then {} else AllPairs(runs.before) + Pairs(runs.run)
  }

  ghost function AllVisited(runs: Runs): set<int> {
    if runs.NoRuns? then {} else AllVisited(runs.before) + Visited(runs.run)
  }

  ghost predicate InHistory(run: seq<int>, runs: Runs) {
    runs.Then? && (run == runs.run || InHistory(run, runs.before))
  }

  /** An edge recorded over several runs joins two consecutive instructions of one of them. */
  lemma {:induction false} RecordedEdgeIsConsecutive(runs: Runs, e: Edge) returns (run: seq<int>, i: nat)
    requires e in AllPairs(runs)
    ensures InHistory(run, runs) && i + 1 < |run| && e == (run[i], run[i + 1])
  {
    if e in Pairs(runs.run) {
      var k :| 0 <= k < |runs.run| - 1 && EdgeAt(runs.run, k) == e;
      run, i := runs.run, k;
    } else {
      run, i := RecordedEdgeIsConsecutive(runs.before, e);
    }
  }

  /** The second half of a call, directly after its executed first half `before`. */
  predicate IsSuffix(prior: Option<int>, at: int, opcode: seq<byte>, before: seq<byte>) {
    Half(opcode, 0) / 0x800 in {0x1d, 0x1f} && prior == Some(at - 2) && Half(before, 0) / 0x800 == 0x1e
  }

  // ---------------------------------------------------------------- comparison

  ghost predicate Walkable(f: Function) {
    exists body :: IsBody(f, body)
  }

  ghost function Body(f: Function): set<int>
    requires Walkable(f)
  {
    var body :| IsBody(f, body);
    body
  }

  ghost predicate AllWalkable(data: seq<byte>, decoder: Decoder, roots: seq<nat>) {
    forall r :: r in roots ==> Walkable(Function(data, decoder, r))
  }

  ghost function AllRequired(data: seq<byte>, decoder: Decoder, roots: seq<nat>): set<Edge>
    requires AllWalkable(data, decoder, roots)
  {
    if roots == [] then {}
    else
      var f := Function(data, decoder, roots[|roots| - 1]);
      AllRequired(data, decoder, roots[..|roots| - 1]) + Required(f, Body(f))
  }

  ghost function AllReachable(data: seq<byte>, decoder: Decoder, roots: seq<nat>): set<int>
    requires AllWalkable(data, decoder, roots)
  {
    if roots == [] then {}
    else AllReachable(data, decoder, roots[..|roots| - 1]) + Body(Function(data, decoder, roots[|roots| - 1]))
  }

  lemma NeedsOneMore(data: seq<byte>, decoder: Decoder, roots: seq<nat>, root: nat, seen: set<int>)
    requires AllWalkable(data, decoder, roots) && IsBody(Function(data, decoder, root), seen)
    ensures AllWalkable(data, decoder, roots + [root])
    ensures AllRequired(data, decoder, roots + [root])
         == AllRequired(data, decoder, roots) + Required(Function(data, decoder, root), seen)
    ensures AllReachable(data, decoder, roots + [root]) == AllReachable(data, decoder, roots) + seen
  {
    var f, more := Function(data, decoder, root), roots + [root];
    BodyIsUnique(f, seen, Body(f));
    assert more[..|more| - 1] == roots;
  }

  /** What the roots need together. */
  ghost predicate Gathered(data: seq<byte>, decoder: Decoder, roots: seq<nat>, required: set<Edge>,
                           reachable: set<int>) {
    && AllWalkable(data, decoder, roots)
    && required == AllRequired(data, decoder, roots) && reachable == AllReachable(data, decoder, roots)
  }

  lemma GatherOneMore(data: seq<byte>, decoder: Decoder, roots: seq<nat>, root: nat, required: set<Edge>,
                      reachable: set<int>, seen: set<int>)
    requires Gathered(data, decoder, roots, required, reachable) && IsBody(Function(data, decoder, root), seen)
    ensures Gathered(data, decoder, roots + [root], required + Required(Function(data, decoder, root), seen),
                     reachable + seen)
  {
    NeedsOneMore(data, decoder, roots, root, seen);
  }

  lemma PrefixOneMore<T>(s: seq<T>, n: nat)
    requires n < |s|
    ensures s[..n + 1] == s[..n] + [s[n]]
  {
  }

  lemma OneNotWalkable(data: seq<byte>, decoder: Decoder, roots: seq<nat>, n: nat)
    requires n < |roots| && !Walkable(Function(data, decoder, roots[n]))
    ensures !AllWalkable(data, decoder, roots)
  {
    assert roots[n] in roots;
  }

  /** What the comparison reports; the sorted lists of the report are kept as sets. */
  datatype Report = Report(conditionalEdges: nat, coveredEdges: nat, uncovered: set<Edge>,
                           reachable: nat, covered: nat, unvisited: set<int>)

  function Compare(required: set<Edge>, reachable: set<int>, edges: set<Edge>, instructions: set<int>): (r: Report)
    ensures r.conditionalEdges == r.coveredEdges + |r.uncovered| == |required|
    ensures r.reachable == r.covered + |r.unvisited| == |reachable|
    ensures forall e :: e in r.uncovered <==> e in required && e !in edges
    ensures forall at :: at in r.unvisited <==> at in reachable && at !in instructions
    ensures r.uncovered == {} <==> required <= edges
    ensures r.unvisited == {} <==> reachable <= instructions
  {
    SplitSize(required, edges);
    SplitSize(reachable, instructions);
    Report(|required|, |required * edges|, required - edges, |reachable|, |reachable * instructions|,
           reachable - instructions)
  }

  /** A report exists when every root's function is accepted, and compares all they need with what was recorded. */
  ghost predicate IsReport(report: Option<Report>, data: seq<byte>, decoder: Decoder, roots: seq<nat>,
                           edges: set<Edge>, instructions: set<int>)
  {
    && (report.Some? <==> AllWalkable(data, decoder, roots))
    && (report.Some? ==>
         report.value ==
         Compare(AllRequired(data, decoder, roots), AllReachable(data, decoder, roots), edges, instructions))
  }

  lemma SplitSize<T>(a: set<T>, b: set<T>)
    ensures |a| == |a * b| + |a - b|
    ensures a - b == {} <==> a <= b
  {
    if a - b == {} {
      forall x | x in a ensures x in b {
        assert x !in a - b;
      }
    }
    assert a == a * b + (a - b);
    assert (a * b) * (a - b) == {};
  }

  // ---------------------------------------------------------------- the report in terms of runs

  /** Some recorded run took the edge. */
  ghost predicate Took(runs: Runs, e: Edge) {
    exists run, i: nat :: InHistory(run, runs) && i + 1 < |run| && run[i] == e.0 && run[i + 1] == e.1
  }

  /** Some recorded run holds the instruction. */
  ghost predicate Ran(runs: Runs, at: int) {
    exists run :: InHistory(run, runs) && at in run
  }

  ghost predicate BranchesSomewhere(data: seq<byte>, decoder: Decoder, roots: seq<nat>, e: Edge) {
    exists root :: root in roots && Branches(Function(data, decoder, root), e)
  }

  ghost predicate MetSomewhere(data: seq<byte>, decoder: Decoder, roots: seq<nat>, at: int) {
    exists root :: root in roots && IsMet(Function(data, decoder, root), at)
  }

  /**
   The report lists exactly the edges out of conditionals that the functions can take and no recorded run
   took, and the instructions they can meet and no recorded run holds; and it counts the others.
   */
  ghost predicate Lists(r: Report, data: seq<byte>, decoder: Decoder, roots: seq<nat>, runs: Runs) {
    && ListsEdges(r.uncovered, r.conditionalEdges, r.coveredEdges, data, decoder, roots, runs)
    && ListsInstructions(r.unvisited, r.reachable, r.covered, data, decoder, roots, runs)
  }

  ghost predicate ListsEdges(uncovered: set<Edge>, total: nat, covered: nat, data: seq<byte>, decoder: Decoder,
                             roots: seq<nat>, runs: Runs) {
    && (forall e :: e in uncovered <==> BranchesSomewhere(data, decoder, roots, e) && !Took(runs, e))
    && exists all: set<Edge> ::
         && (forall e :: e in all <==> BranchesSomewhere(data, decoder, roots, e))
         && total == |all| && covered == |all| - |uncovered|
  }

  ghost predicate ListsInstructions(unvisited: set<int>, total: nat, covered: nat, data: seq<byte>, decoder: Decoder,
                                    roots: seq<nat>, runs: Runs) {
    && (forall at :: at in unvisited <==> MetSomewhere(data, decoder, roots, at) && !Ran(runs, at))
    && exists all: set<int> ::
         && (forall at :: at in all <==> MetSomewhere(data, decoder, roots, at))
         && total == |all| && covered == |all| - |unvisited|
  }

  /** There is a report when no run of any of the functions meets anything refused. */
  ghost predicate ReportsRuns(report: Option<Report>, data: seq<byte>, decoder: Decoder, roots: seq<nat>, runs: Runs) {
    && (report.Some? <==> forall root :: root in roots ==> NeverRefused(Function(data, decoder, root)))
    && (report.Some? ==> Lists(report.value, data, decoder, roots, runs))
  }

  lemma {:induction false} TookIff(runs: Runs, e: Edge)
    ensures e in AllPairs(runs) <==> Took(runs, e)
  {
    if e in AllPairs(runs) {
      var run, i := RecordedEdgeIsConsecutive(runs, e);
    }
    if Took(runs, e) {
      var run, i: nat :| InHistory(run, runs) && i + 1 < |run| && run[i] == e.0 && run[i + 1] == e.1;
      HistoryIsRecorded(run, runs);
      assert EdgeAt(run, i) == e;
    }
  }

  lemma {:induction false} HistoryIsRecorded(run: seq<int>, runs: Runs)
    requires InHistory(run, runs)
    ensures Pairs(run) <= AllPairs(runs) && Visited(run) <= AllVisited(runs)
  {
    if run != runs.run {
      HistoryIsRecorded(run, runs.before);
    }
  }

  lemma {:induction false} RanIff(runs: Runs, at: int)
    ensures at in AllVisited(runs) <==> Ran(runs, at)
  {
    if at in AllVisited(runs) {
      var run := RecordedInstructionWasRun(runs, at);
    }
    if Ran(runs, at) {
      var run :| InHistory(run, runs) && at in run;
      HistoryIsRecorded(run, runs);
      assert at in Visited(run);
    }
  }

  lemma {:induction false} RecordedInstructionWasRun(runs: Runs, at: int) returns (run: seq<int>)
    requires at in AllVisited(runs)
    ensures InHistory(run, runs) && at in run
  {
    if at in Visited(runs.run) {
      run := runs.run;
    } else {
      run := RecordedInstructionWasRun(runs.before, at);
    }
  }

  lemma {:induction false} AllRequiredIff(data: seq<byte>, decoder: Decoder, roots: seq<nat>, e: Edge)
    requires AllWalkable(data, decoder, roots)
    ensures e in AllRequired(data, decoder, roots) <==> BranchesSomewhere(data, decoder, roots, e)
    decreases |roots|
  {
    if roots != [] {
      var n := |roots|;
      AllRequiredIff(data, decoder, roots[..n - 1], e);
      var f := Function(data, decoder, roots[n - 1]);
      RequiredIsTaken(f, Body(f), e);
      OneRootMore(roots);
    }
  }

  lemma {:induction false} AllReachableIff(data: seq<byte>, decoder: Decoder, roots: seq<nat>, at: int)
    requires AllWalkable(data, decoder, roots)
    ensures at in AllReachable(data, decoder, roots) <==> MetSomewhere(data, decoder, roots, at)
    decreases |roots|
  {
    if roots != [] {
      var n := |roots|;
      AllReachableIff(data, decoder, roots[..n - 1], at);
      var f := Function(data, decoder, roots[n - 1]);
      BodyIsMet(f, Body(f));
      OneRootMore(roots);
    }
  }

  lemma OneRootMore(roots: seq<nat>)
    requires roots != []
    ensures forall root :: root in roots <==> root in roots[..|roots| - 1] || root == roots[|roots| - 1]
  {
    assert roots == roots[..|roots| - 1] + [roots[|roots| - 1]];
  }

  lemma AllWalkableIff(data: seq<byte>, decoder: Decoder, roots: seq<nat>)
    ensures AllWalkable(data, decoder, roots) <==>
            forall root :: root in roots ==> NeverRefused(Function(data, decoder, root))
  {
    forall root | root in roots
      ensures Walkable(Function(data, decoder, root)) <==> NeverRefused(Function(data, decoder, root))
    {
      WalkableIff(Function(data, decoder, root));
    }
  }

  lemma ComparisonListsEdges(data: seq<byte>, decoder: Decoder, roots: seq<nat>, runs: Runs, required: set<Edge>,
                             uncovered: set<Edge>, covered: nat)
    requires AllWalkable(data, decoder, roots) && required == AllRequired(data, decoder, roots)
    requires forall e :: e in uncovered <==> e in required && e !in AllPairs(runs)
    requires |required| == covered + |uncovered|
    ensures ListsEdges(uncovered, |required|, covered, data, decoder, roots, runs)
  {
    forall e
      ensures e in required <==> BranchesSomewhere(data, decoder, roots, e)
      ensures e in AllPairs(runs) <==> Took(runs, e)
    {
      AllRequiredIff(data, decoder, roots, e);
      TookIff(runs, e);
    }
  }

  lemma ComparisonListsInstructions(data: seq<byte>, decoder: Decoder, roots: seq<nat>, runs: Runs,
                                    reachable: set<int>, unvisited: set<int>, covered: nat)
    requires AllWalkable(data, decoder, roots) && reachable == AllReachable(data, decoder, roots)
    requires forall at :: at in unvisited <==> at in reachable && at !in AllVisited(runs)
    requires |reachable| == covered + |unvisited|
    ensures ListsInstructions(unvisited, |reachable|, covered, data, decoder, roots, runs)
  {
    forall at
      ensures at in reachable <==> MetSomewhere(data, decoder, roots, at)
      ensures at in AllVisited(runs) <==> Ran(runs, at)
    {
      AllReachableIff(data, decoder, roots, at);
      RanIff(runs, at);
    }
  }

  lemma ComparisonLists(data: seq<byte>, decoder: Decoder, roots: seq<nat>, runs: Runs, required: set<Edge>,
                        reachable: set<int>, edges: set<Edge>, instructions: set<int>, r: Report)
    requires AllWalkable(data, decoder, roots)
    requires required == AllRequired(data, decoder, roots) && reachable == AllReachable(data, decoder, roots)
    requires edges == AllPairs(runs) && instructions == AllVisited(runs)
    requires r == Compare(required, reachable, edges, instructions)
    ensures Lists(r, data, decoder, roots, runs)
  {
    ComparisonListsEdges(data, decoder, roots, runs, required, r.uncovered, r.coveredEdges);
    ComparisonListsInstructions(data, decoder, roots, runs, reachable, r.unvisited, r.covered);
  }

  /** The comparison with a recording of `runs`, said without it. */
  lemma ReportMeans(report: Option<Report>, data: seq<byte>, decoder: Decoder, roots: seq<nat>, runs: Runs,
                    edges: set<Edge>, instructions: set<int>)
    requires IsReport(report, data, decoder, roots, edges, instructions)
    requires edges == AllPairs(runs) && instructions == AllVisited(runs)
    ensures ReportsRuns(report, data, decoder, roots, runs)
  {
    AllWalkableIff(data, decoder, roots);
    if report.Some? {
      ComparisonLists(data, decoder, roots, runs, AllRequired(data, decoder, roots), AllReachable(data, decoder, roots),
                      edges, instructions, report.value);
    }
  }

  /** The recording hooks and the comparison. `runs` is the history the hooks have seen. */
  class Execution {
    var edges: set<Edge>
    var instructions: set<int>
    var previous: Option<int>
    var staticInstructions: set<int>
    const thumb1: bool
    ghost var runs: Runs

    ghost predicate Valid()
      reads this
    {
      && edges == AllPairs(runs)
      && instructions == AllVisited(runs)
      && previous == if runs.NoRuns? || runs.run == [] then None else Some(runs.run[|runs.run| - 1])
    }

    constructor (thumb1: bool)
      ensures Valid() && runs == NoRuns
    {
      edges, instructions, previous, staticInstructions := {}, {}, None, {};
      this.thumb1 := thumb1;
      runs := NoRuns;
    }

    /** The wrapped emulator start: a new run, which no edge joins to the one before. */
    method Start()
      requires Valid()
      modifies this
      ensures Valid() && runs == Then(old(runs), [])
      ensures edges == old(edges) && instructions == old(instructions)
    {
      previous := None;
      runs := Then(runs, []);
    }

    /**
     The code hook. The instruction is recorded first and checked afterwards: the
     second half of a call is accepted directly after its first half, `before`.
     */
    method Step(at: int, thumb: bool, opcode: seq<byte>, before: seq<byte>) returns (accepted: bool)
      requires Valid() && runs.Then?
      modifies this
      ensures Valid() && runs == Then(old(runs).before, old(runs).run + [at])
      ensures accepted == (!thumb1 || !thumb || Thumb1Instruction(opcode) ||
              IsSuffix(old(previous), at, opcode, before))
    {
      var prior := previous;
      if prior.Some? {
        edges := edges + {(prior.value, at)};
      }
      previous := Some(at);
      instructions := instructions + {at};
      PairsOneMore(runs.run, at);
      VisitedOneMore(runs.run, at);
      runs := Then(runs.before, runs.run + [at]);
      accepted := true;
      if thumb1 && thumb {
        accepted := Thumb1Instruction(opcode) || IsSuffix(prior, at, opcode, before);
      }
    }

    /**
     Static requirements of all roots against what was recorded. None when some
     root's function is refused.
     */
    method Missing(data: seq<byte>, decoder: Decoder, roots: seq<nat>) returns (report: Option<Report>)
      modifies this`staticInstructions
      ensures IsReport(report, data, decoder, roots, edges, instructions)
      ensures Valid() ==> ReportsRuns(report, data, decoder, roots, runs)
    {
      report := Gather(data, decoder, roots);
      if edges == AllPairs(runs) && instructions == AllVisited(runs) {
        ReportMeans(report, data, decoder, roots, runs, edges, instructions);
      }
    }

    method Gather(data: seq<byte>, decoder: Decoder, roots: seq<nat>) returns (report: Option<Report>)
      modifies this`staticInstructions
      ensures IsReport(report, data, decoder, roots, edges, instructions)
    {
      var required: set<Edge>, reachable: set<int> := {}, {};
      for n := 0 to |roots|
        invariant Gathered(data, decoder, roots[..n], required, reachable)
      {
        var f := Function(data, decoder, roots[n]);
        var more, seen := BranchRequirements(f);
        if more.None? {
          OneNotWalkable(data, decoder, roots, n);
          return None;
        }
        staticInstructions := seen;
        GatherOneMore(data, decoder, roots[..n], roots[n], required, reachable, seen);
        PrefixOneMore(roots, n);
        required, reachable := required + more.value, reachable + seen;
      }
      assert roots[..|roots|] == roots;
      report := Some(Compare(required, reachable, edges, instructions));
    }
  }
}
