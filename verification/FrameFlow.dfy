/**
 The R5 data flow of the UHD mode audit: an over-approximation of one routine's
 local branches that must find one single R5 value at a given site.
 */
module FrameFlow {
  import opened Images
  import opened Disassembly
  import opened Reachability

  const WINDOW := 0x2000
  const LIMIT := 4096
  const R5 := 5
  const LR := 14

  datatype Routine = Routine(data: seq<byte>, decoder: Decoder, entry: nat, site: int)

  /** `base` is the literal R5 holds, or None for whatever it held at entry. */
  datatype State = State(pc: int, base: Option<int>)

  predicate InWindow(r: Routine, pc: int) {
    r.entry <= pc < r.entry + WINDOW
  }

  predicate Returns(i: Insn) {
    || (i.mnemonic.Pop? && i.mentionsPc)
    || (i.mnemonic.Bx? && i.operands == [Reg(LR)])
  }

  /** `ldr r5, [pc, #n]` in its two-byte form. */
  predicate LoadsR5(r: Routine, i: Insn, pc: nat) {
    |i.bytes| == 2 && Half(r.data, pc) / 0x100 == 0x4d
  }

  /** The abstract instruction: None is an assertion failure, otherwise the states to visit next. */
  function Visit(r: Routine, s: State): Option<set<State>> {
    if !InWindow(r, s.pc) then Some({})
    else match DecodeAt(r.decoder, r.data, s.pc)
      case None => None
      case Some(i) =>
        if Returns(i) then Some({})
        else if R5 in i.written && (!LoadsR5(r, i, s.pc) || Literal(r.data, s.pc).None?) then None
        else
          var base := if R5 in i.written then Some(Literal(r.data, s.pc).value) else s.base;
          var after := State(s.pc + |i.bytes|, base);
          if i.isCall || !i.isJump then Some({after})
          else if |Immediates(i.operands)| != 1 then None
          else Some({State(Immediates(i.operands)[0], base)} + if i.mnemonic.B? then {} else {after})
  }

  function Next(r: Routine): State -> set<State> {
    s => match Visit(r, s) case None => {} case Some(next) => next
  }

  function Start(r: Routine): set<State> {
    {State(r.entry, None)}
  }

  /** `v` is the whole abstract flow, nothing in it fails, and `expected` is the only value R5 has at the site. */
  ghost predicate Qualifies(r: Routine, expected: int, v: set<State>) {
    && Reaches(Start(r), Next(r), v)
    && |v| <= LIMIT
    && (forall s :: s in v ==> Visit(r, s).Some?)
    && Bases(r, v) == {Some(expected)}
  }

  ghost function Bases(r: Routine, v: set<State>): set<Option<int>> {
    set s | s in v && InWindow(r, s.pc) && s.pc == r.site :: s.base
  }

  ghost predicate Sound(r: Routine, seen: set<State>) {
    forall s :: s in seen ==> Visit(r, s).Some?
  }

  /** The loop invariant. */
  ghost predicate Working(r: Routine, visited: set<State>, pending: seq<State>, bases: set<Option<int>>) {
    && Frontier(Start(r), Next(r), visited, Elements(pending))
    && |visited| <= LIMIT
    && Sound(r, visited)
    && bases == Bases(r, visited)
  }

  /** What a state adds to the bases seen at the site. */
  function BaseAt(r: Routine, s: State): set<Option<int>> {
    if InWindow(r, s.pc) && s.pc == r.site then {s.base} else {}
  }

  lemma BasesOneMore(r: Routine, seen: set<State>, s: State)
    ensures Bases(r, seen + {s}) == Bases(r, seen) + BaseAt(r, s)
  {
  }

  lemma SkipVisited(r: Routine, visited: set<State>, pending: seq<State>, bases: set<Option<int>>)
    requires Working(r, visited, pending, bases)
    requires pending != [] && Last(pending) in visited
    ensures Working(r, visited, AllButLast(pending), bases)
  {
    AdvanceStack(Start(r), Next(r), visited, pending, []);
    assert AllButLast(pending) + [] == AllButLast(pending);
  }

  lemma VisitOneMore(r: Routine, visited: set<State>, pending: seq<State>, bases: set<Option<int>>, pushed: seq<State>)
    requires Working(r, visited, pending, bases)
    requires pending != [] && Last(pending) !in visited && |visited| < LIMIT
    requires Visit(r, Last(pending)).Some? && Elements(pushed) == Next(r)(Last(pending))
    ensures Working(r, visited + {Last(pending)}, AllButLast(pending) + pushed, bases + BaseAt(r, Last(pending)))
    ensures |visited + {Last(pending)}| == |visited| + 1
  {
    AdvanceStack(Start(r), Next(r), visited, pending, pushed);
    BasesOneMore(r, visited, Last(pending));
  }

  /** The body of the loop: what visiting one state inside the window pushes, in order. */
  method Expand(r: Routine, s: State) returns (pushed: Option<seq<State>>)
    requires InWindow(r, s.pc)
    ensures pushed.Some? <==> Visit(r, s).Some?
    ensures pushed.Some? ==> Elements(pushed.value) == Next(r)(s)
  {
    var State(pc, base) := s;
    var insn := DecodeAt(r.decoder, r.data, pc);
    if insn.None? {
      return None;
    }
    var i := insn.value;
    if Returns(i) {
      return Some([]);
    }
    if R5 in i.written {
      if LoadsR5(r, i, pc) && Literal(r.data, pc).Some? {
        base := Some(Literal(r.data, pc).value);
      } else {
        return None;
      }
    }
    var after := State(pc + |i.bytes|, base);
    if i.isCall {
      pushed := Some([after]);
    } else if i.isJump {
      var operands := Immediates(i.operands);
      if |operands| != 1 {
        return None;
      }
      pushed := Some([State(operands[0], base)]);
      if !i.mnemonic.B? {
        pushed := Some(pushed.value + [after]);
      }
    } else {
      pushed := Some([after]);
    }
  }

  /** The worklist. It succeeds exactly on the routines that qualify, and counts their abstract states. */
  method Analyse(r: Routine, expected: int) returns (states: Option<nat>)
    ensures states.Some? <==> exists v :: Qualifies(r, expected, v)
    ensures forall v :: Qualifies(r, expected, v) ==> states == Some(|v|)
    ensures states.Some? <==> Behaves(r, expected)
  {
    assert Behaves(r, expected) <==> exists v :: Qualifies(r, expected, v) by {
      QualifiesIffBehaves(r, expected);
    }
    var pending, visited, bases := [State(r.entry, None)], {}, {};
    while pending != []
      invariant Working(r, visited, pending, bases)
      decreases LIMIT - |visited|, |pending|
    {
      var s := Last(pending);
      if s in visited {
        SkipVisited(r, visited, pending, bases);
        pending := AllButLast(pending);
        continue;
      }
      var next := None;
      if |visited| < LIMIT {
        if InWindow(r, s.pc) {
          next := Expand(r, s);
        } else {
          next := Some([]);
        }
      }
      if next.None? {
        NothingQualifies(r, expected, visited, Elements(pending), s);
        return None;
      }
      VisitOneMore(r, visited, pending, bases, next.value);
      visited, bases, pending := visited + {s}, bases + BaseAt(r, s), AllButLast(pending) + next.value;
    }
    OnlyOneFlow(r, expected, visited);
    if bases != {Some(expected)} {
      return None;
    }
    states := Some(|visited|);
  }

  /** A state that fails, or one state too many, means that no flow qualifies. */
  lemma NothingQualifies(r: Routine, expected: int, seen: set<State>, pending: set<State>, s: State)
    requires Frontier(Start(r), Next(r), seen, pending) && s in pending
    requires Visit(r, s).None? || (s !in seen && |seen| >= LIMIT)
    ensures forall v :: !Qualifies(r, expected, v)
  {
    forall v | Qualifies(r, expected, v) ensures false {
      assert seen + {s} <= v;
      SubsetSize(seen + {s}, v);
    }
  }

  lemma OnlyOneFlow(r: Routine, expected: int, visited: set<State>)
    requires Working(r, visited, [], Bases(r, visited))
    ensures Qualifies(r, expected, visited) <==> Bases(r, visited) == {Some(expected)}
    ensures forall v :: Qualifies(r, expected, v) ==> v == visited
  {
    EmptyFrontier(Start(r), Next(r), visited);
  }

  // ---------------------------------------------------------------- the processor

  /** Program counter and R5 of a real run; everything else decides the branches. */
  datatype Cpu = Cpu(pc: int, r5: int)

  /** `target` is where the branch may go; an indirect jump may go anywhere. */
  ghost predicate Jumps(i: Insn, pc: int, target: int) {
    || Immediates(i.operands) == []
    || target in Immediates(i.operands)
    || (!i.mnemonic.B? && target == pc + |i.bytes|)
  }

  /**
   One instruction of a real run. A call returns to the next instruction with R5
   preserved, as the procedure call standard asks of callees.
   */
  ghost predicate Step(r: Routine, c: Cpu, c': Cpu) {
    && 0 <= c.pc
    && var insn := DecodeAt(r.decoder, r.data, c.pc);
    && insn.Some? && !Returns(insn.value)
    && (if R5 !in insn.value.written then c'.r5 == c.r5
        else LoadsR5(r, insn.value, c.pc) && Literal(r.data, c.pc).Some? ==> c'.r5 == Literal(r.data, c.pc).value)
    && (if insn.value.isJump && !insn.value.isCall then Jumps(insn.value, c.pc, c'.pc)
        else c'.pc == c.pc + |insn.value.bytes|)
  }

  ghost predicate IsRun(r: Routine, run: seq<Cpu>) {
    && run != []
    && run[0].pc == r.entry
    && (forall i :: 0 <= i < |run| ==> InWindow(r, run[i].pc))
    && forall i :: 0 <= i < |run| - 1 ==> Step(r, run[i], run[i + 1])
  }

  /** The abstract state covers the real one. */
  ghost predicate Covers(s: State, c: Cpu) {
    s.pc == c.pc && (s.base.Some? ==> s.base.value == c.r5)
  }

  lemma StepIsCovered(r: Routine, s: State, c: Cpu, c': Cpu) returns (s': State)
    requires InWindow(r, c.pc) && Covers(s, c) && Step(r, c, c') && Visit(r, s).Some?
    ensures s' in Next(r)(s) && Covers(s', c')
  {
    var i := DecodeAt(r.decoder, r.data, c.pc).value;
    var base := if R5 in i.written then Some(Literal(r.data, c.pc).value) else s.base;
    s' := State(c'.pc, base);
  }

  lemma {:induction false} RunIsCovered(r: Routine, v: set<State>, run: seq<Cpu>, n: nat) returns (s: State)
    requires Reaches(Start(r), Next(r), v) && forall s :: s in v ==> Visit(r, s).Some?
    requires IsRun(r, run) && n < |run|
    ensures s in v && Covers(s, run[n])
  {
    if n == 0 {
      s := State(r.entry, None);
      assert s in Start(r);
    } else {
      var before := RunIsCovered(r, v, run, n - 1);
      assert Step(r, run[n - 1], run[n - 1 + 1]);
      s := StepIsCovered(r, before, run[n - 1], run[n]);
      assert Next(r)(before) <= v;
    }
  }

  /** Soundness: whatever R5 held at entry, every run that reaches the site has the expected base there. */
  lemma FlowIsSound(r: Routine, expected: int, run: seq<Cpu>)
    requires exists v :: Qualifies(r, expected, v)
    requires IsRun(r, run) && run[|run| - 1].pc == r.site
    ensures run[|run| - 1].r5 == expected
  {
    var v :| Qualifies(r, expected, v);
    var s := RunIsCovered(r, v, run, |run| - 1);
    assert s.base in Bases(r, v);
  }

  // ---------------------------------------------------------------- no more than real runs meet

  /** What makes the analysis give up at an address, whatever R5 holds there. */
  predicate Refused(r: Routine, pc: nat) {
    var insn := DecodeAt(r.decoder, r.data, pc);
    || insn.None?
    || (!Returns(insn.value) && R5 in insn.value.written && !(LoadsR5(r, insn.value, pc) && Literal(r.data, pc).Some?))
    || (!Returns(insn.value) && insn.value.isJump && !insn.value.isCall && |Immediates(insn.value.operands)| != 1)
  }

  /** A real run that may leave the window with its last step. */
  ghost predicate IsTrail(r: Routine, run: seq<Cpu>) {
    && run != []
    && run[0].pc == r.entry
    && (forall i :: 0 <= i < |run| - 1 ==> InWindow(r, run[i].pc))
    && forall i :: 0 <= i < |run| - 1 ==> Step(r, run[i], run[i + 1])
  }

  predicate WritesR5(r: Routine, pc: int) {
    0 <= pc && DecodeAt(r.decoder, r.data, pc).Some? && R5 in DecodeAt(r.decoder, r.data, pc).value.written
  }

  /** The value R5 was last given on a run; None while it holds what it held at entry. */
  function Given(r: Routine, run: seq<Cpu>): Option<int> {
    if |run| < 2 then None
    else if WritesR5(r, run[|run| - 2].pc) then Some(run[|run| - 1].r5)
    else Given(r, run[..|run| - 1])
  }

  /** The place and the given value that a run ends with. */
  function EndOf(r: Routine, run: seq<Cpu>): State
    requires run != []
  {
    State(run[|run| - 1].pc, Given(r, run))
  }

  ghost predicate Met(r: Routine, s: State) {
    exists run :: IsTrail(r, run) && EndOf(r, run) == s
  }

  /** No run meets an address at which the analysis gives up. */
  ghost predicate NeverRefused(r: Routine) {
    forall run: seq<Cpu> ::
      IsTrail(r, run) && InWindow(r, run[|run| - 1].pc) ==> !Refused(r, run[|run| - 1].pc)
  }

  ghost predicate IsAllMet(r: Routine, met: set<State>) {
    forall s :: s in met <==> Met(r, s)
  }

  /**
   What a routine must do, in terms of its runs: none meets anything refused, they meet at most the limit of
   places and given values, some run is at the site, and every run that is there was given the expected value.
   */
  ghost predicate Behaves(r: Routine, expected: int) {
    && NeverRefused(r)
    && (exists met :: IsAllMet(r, met) && |met| <= LIMIT)
    && OneBase(r, expected)
  }

  /** Some run is at the site, and every run that is there was given the expected value. */
  ghost predicate OneBase(r: Routine, expected: int) {
    && InWindow(r, r.site) && Met(r, State(r.site, Some(expected)))
    && forall run: seq<Cpu> ::
         IsTrail(r, run) && run[|run| - 1].pc == r.site ==> Given(r, run) == Some(expected)
  }

  lemma VisitFailsIff(r: Routine, s: State)
    requires InWindow(r, s.pc)
    ensures Visit(r, s).None? <==> Refused(r, s.pc)
  {
  }

  /** A real step goes to an abstract successor. */
  lemma StepIsNext(r: Routine, s: State, c: Cpu, c': Cpu)
    requires InWindow(r, c.pc) && s.pc == c.pc && !Refused(r, c.pc) && Step(r, c, c')
    ensures State(c'.pc, if WritesR5(r, c.pc) then Some(c'.r5) else s.base) in Next(r)(s)
  {
  }

  /** And every abstract successor is where a real step goes. */
  lemma NextIsStep(r: Routine, s: State, s': State, c: Cpu) returns (c': Cpu)
    requires s' in Next(r)(s) && s.pc == c.pc
    ensures InWindow(r, c.pc) && Step(r, c, c') && c'.pc == s'.pc
    ensures s'.base == if WritesR5(r, c.pc) then Some(c'.r5) else s.base
    ensures !WritesR5(r, c.pc) ==> c'.r5 == c.r5
  {
    c' := Cpu(s'.pc, if WritesR5(r, c.pc) then Literal(r.data, c.pc).value else c.r5);
  }

  lemma TrailOn(r: Routine, run: seq<Cpu>, c: Cpu)
    requires IsTrail(r, run) && InWindow(r, run[|run| - 1].pc) && Step(r, run[|run| - 1], c)
    ensures IsTrail(r, run + [c])
    ensures Given(r, run + [c]) == if WritesR5(r, run[|run| - 1].pc) then Some(c.r5) else Given(r, run)
  {
    var more := run + [c];
    assert more[..|more| - 1] == run;
    forall i | 0 <= i < |more| - 1 ensures InWindow(r, more[i].pc) && Step(r, more[i], more[i + 1]) {
      assert i < |run| - 1 ==> Step(r, run[i], run[i + 1]);
    }
  }

  lemma TrailBack(r: Routine, run: seq<Cpu>)
    requires IsTrail(r, run) && |run| > 1
    ensures IsTrail(r, run[..|run| - 1]) && InWindow(r, run[|run| - 2].pc) && Step(r, run[|run| - 2], run[|run| - 1])
    ensures Given(r, run) ==
            if WritesR5(r, run[|run| - 2].pc) then Some(run[|run| - 1].r5) else Given(r, run[..|run| - 1])
  {
    var less := run[..|run| - 1];
    assert Step(r, run[|run| - 2], run[|run| - 2 + 1]);
    forall i | 0 <= i < |less| - 1 ensures Step(r, less[i], less[i + 1]) {
      assert Step(r, run[i], run[i + 1]);
    }
  }

  /**
   Whatever R5 holds at entry, each abstract state at the end of a path is met by a real run, with R5 as the
   state says.
   */
  lemma {:induction false} PathIsTrail(r: Routine, path: seq<State>, r5: int) returns (run: seq<Cpu>)
    requires IsPath(Start(r), Next(r), path)
    ensures IsTrail(r, run) && EndOf(r, run) == path[|path| - 1] && run[0].r5 == r5
    ensures run[|run| - 1].r5 == if path[|path| - 1].base.Some? then path[|path| - 1].base.value else r5
    decreases |path|
  {
    var n := |path|;
    if n == 1 {
      run := [Cpu(r.entry, r5)];
    } else {
      var less := path[..n - 1];
      forall i | 0 <= i < |less| - 1 ensures less[i + 1] in Next(r)(less[i]) {
        assert path[i + 1] in Next(r)(path[i]);
      }
      var before := PathIsTrail(r, less, r5);
      assert path[n - 2 + 1] in Next(r)(path[n - 2]);
      var c := NextIsStep(r, path[n - 2], path[n - 1], before[|before| - 1]);
      TrailOn(r, before, c);
      run := before + [c];
    }
  }

  /** A run through addresses that are not refused stays in every set that holds the start and is closed. */
  lemma {:induction false} TrailStaysInside(r: Routine, v: set<State>, run: seq<Cpu>)
    requires Start(r) <= v && Closed(Next(r), v) && IsTrail(r, run)
    requires forall s :: s in v && InWindow(r, s.pc) ==> !Refused(r, s.pc)
    ensures EndOf(r, run) in v
    decreases |run|
  {
    if |run| == 1 {
      assert State(r.entry, None) in Start(r);
    } else {
      TrailBack(r, run);
      var before := run[..|run| - 1];
      TrailStaysInside(r, v, before);
      StepIsNext(r, EndOf(r, before), run[|run| - 2], run[|run| - 1]);
      assert Next(r)(EndOf(r, before)) <= v;
    }
  }

  /** The flow of a routine that nothing refuses is exactly what its real runs meet. */
  lemma FlowIsMet(r: Routine, v: set<State>)
    requires Reaches(Start(r), Next(r), v) && Sound(r, v)
    ensures IsAllMet(r, v) && NeverRefused(r)
  {
    forall s | s in v && InWindow(r, s.pc) ensures !Refused(r, s.pc) {
      VisitFailsIff(r, s);
    }
    forall s | s in v ensures Met(r, s) {
      ReachedIffOnPath(Start(r), Next(r), v);
      var path :| IsPath(Start(r), Next(r), path) && path[|path| - 1] == s;
      var run := PathIsTrail(r, path, 0);
    }
    forall run | IsTrail(r, run) ensures EndOf(r, run) in v {
      TrailStaysInside(r, v, run);
    }
  }

  /** As above, for a state at hand and any R5 at entry. */
  lemma StateIsMet(r: Routine, v: set<State>, s: State, r5: int) returns (run: seq<Cpu>)
    requires Reaches(Start(r), Next(r), v) && s in v
    ensures IsTrail(r, run) && run[0].r5 == r5 && Covers(s, run[|run| - 1])
    ensures s.base.None? ==> run[|run| - 1].r5 == r5
    ensures InWindow(r, s.pc) ==> IsRun(r, run)
  {
    ReachedIffOnPath(Start(r), Next(r), v);
    var path :| IsPath(Start(r), Next(r), path) && path[|path| - 1] == s;
    run := PathIsTrail(r, path, r5);
  }

  /** What runs meet is the flow, when no run meets anything refused. */
  lemma MetIsFlow(r: Routine, met: set<State>)
    requires IsAllMet(r, met) && NeverRefused(r)
    ensures Reaches(Start(r), Next(r), met) && Sound(r, met)
  {
    var start := [Cpu(r.entry, 0)];
    assert IsTrail(r, start) && EndOf(r, start) == State(r.entry, None);
    forall s | s in met ensures Visit(r, s).Some? {
      var run :| IsTrail(r, run) && EndOf(r, run) == s;
      if InWindow(r, s.pc) {
        VisitFailsIff(r, s);
      }
    }
    forall s, s' | s in met && s' in Next(r)(s) ensures s' in met {
      var run :| IsTrail(r, run) && EndOf(r, run) == s;
      var c := NextIsStep(r, s, s', run[|run| - 1]);
      TrailOn(r, run, c);
      assert EndOf(r, run + [c]) == s';
    }
    forall c | Start(r) <= c && Closed(Next(r), c) ensures met <= c {
      forall s | s in met ensures s in c {
        var run :| IsTrail(r, run) && EndOf(r, run) == s;
        MetStaysInside(r, c, run);
      }
    }
  }

  lemma {:induction false} MetStaysInside(r: Routine, v: set<State>, run: seq<Cpu>)
    requires Start(r) <= v && Closed(Next(r), v) && IsTrail(r, run) && NeverRefused(r)
    ensures EndOf(r, run) in v
    decreases |run|
  {
    if |run| == 1 {
      assert State(r.entry, None) in Start(r);
    } else {
      TrailBack(r, run);
      var before := run[..|run| - 1];
      MetStaysInside(r, v, before);
      StepIsNext(r, EndOf(r, before), run[|run| - 2], run[|run| - 1]);
      assert Next(r)(EndOf(r, before)) <= v;
    }
  }

  lemma BasesAreGiven(r: Routine, expected: int, v: set<State>)
    requires IsAllMet(r, v)
    ensures Bases(r, v) == {Some(expected)} <==> OneBase(r, expected)
  {
    if Bases(r, v) == {Some(expected)} {
      assert Some(expected) in Bases(r, v);
      forall run: seq<Cpu> | IsTrail(r, run) && run[|run| - 1].pc == r.site ensures Given(r, run) == Some(expected) {
        assert EndOf(r, run) in v;
        assert EndOf(r, run).base in Bases(r, v);
      }
    }
    if OneBase(r, expected) {
      assert State(r.site, Some(expected)) in v;
      forall s | s in v && s.pc == r.site ensures s.base == Some(expected) {
        var run :| IsTrail(r, run) && EndOf(r, run) == s;
      }
    }
  }

  /** Some flow qualifies exactly when the routine's runs behave. */
  lemma QualifiesIffBehaves(r: Routine, expected: int)
    ensures (exists v :: Qualifies(r, expected, v)) <==> Behaves(r, expected)
    ensures forall v :: Qualifies(r, expected, v) ==> IsAllMet(r, v)
  {
    forall v | Qualifies(r, expected, v) ensures IsAllMet(r, v) && Behaves(r, expected) {
      FlowIsMet(r, v);
      BasesAreGiven(r, expected, v);
    }
    if Behaves(r, expected) {
      var met :| IsAllMet(r, met) && |met| <= LIMIT;
      MetIsFlow(r, met);
      BasesAreGiven(r, expected, met);
      assert Qualifies(r, expected, met);
    }
  }
}
