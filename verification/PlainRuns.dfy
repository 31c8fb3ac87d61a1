/** How a case ends and what it returns, told by a processor and a memory without hooks, log and guards. */
module PlainRuns {
  import opened Images
  import opened Coverage
  import opened Replay

  /** A processor and its memory. */
  datatype Machine<C> = Machine(cpu: C, memory: Memory)

  // ---------------------------------------------------------------- one instruction

  predicate MayWrite(q: Request, s: Store) {
    || (STACK - 0x100 <= s.0 && s.0 + |s.1| <= STACK + q.stackDelta)
    || exists i :: 0 <= i < |q.allowWrites| && q.allowWrites[i].0 <= s.0 && s.0 + |s.1| <= q.allowWrites[i].1
  }

  /** Flash, stack window, flags and declared memory may be read; everything may when reads are not strict. */
  predicate MayRead(q: Request, at: nat, size: nat) {
    || !q.strictReads
    || at + size <= q.flashSize
    || (STACK - 0x100 <= at && at + size <= STACK)
    || (q.flags <= at && at + size <= q.flags + 7)
    || exists i :: 0 <= i < |q.memory| && q.memory[i].0 <= at && at + size <= q.memory[i].0 + |q.memory[i].1|
  }

  predicate Fetches<C>(isa: Isa<C>, m: Machine<C>) {
    isa.pc(m.cpu) != STOP + 2 && Mapped(m.memory, isa.pc(m.cpu), 4) && isa.legal(Window(isa, m))
  }

  function Window<C>(isa: Isa<C>, m: Machine<C>): seq<byte>
    requires Mapped(m.memory, isa.pc(m.cpu), 4)
  {
    Read(m.memory, isa.pc(m.cpu), 4)
  }

  predicate IsStop(q: Request, at: nat) {
    at in q.stops || q.boundary(at)
  }

  predicate Loadable(q: Request, m: Memory, loads: seq<(nat, nat)>) {
    forall k :: 0 <= k < |loads| ==> Mapped(m, loads[k].0, loads[k].1) && MayRead(q, loads[k].0, loads[k].1)
  }

  function Values(m: Memory, loads: seq<(nat, nat)>): seq<seq<byte>>
    requires forall k :: 0 <= k < |loads| ==> Mapped(m, loads[k].0, loads[k].1)
  {
    seq(|loads|, k requires 0 <= k < |loads| => Read(m, loads[k].0, loads[k].1))
  }

  predicate Storable(q: Request, m: Memory, stores: seq<Store>) {
    forall k :: 0 <= k < |stores| ==> Mapped(m, stores[k].0, |stores[k].1|) && MayWrite(q, stores[k])
  }

  /** Memory after the first `n` stores. */
  function Written(m: Memory, stores: seq<Store>, n: nat): (m': Memory)
    requires n <= |stores|
    ensures m'.Keys == m.Keys
  {
    if n == 0 then m else Write(Written(m, stores, n - 1), stores[n - 1].0, stores[n - 1].1)
  }

  /** The next processor and the stores of an instruction whose loads are all possible. */
  function Effect<C>(isa: Isa<C>, m: Machine<C>): (C, seq<Store>)
    requires Mapped(m.memory, isa.pc(m.cpu), 4)
    requires var loads := isa.loads(m.cpu, Window(isa, m));
             forall k :: 0 <= k < |loads| ==> Mapped(m.memory, loads[k].0, loads[k].1)
  {
    isa.execute(m.cpu, Window(isa, m), Values(m.memory, isa.loads(m.cpu, Window(isa, m))))
  }

  /** The machine executes one more instruction, and is permitted all its accesses. */
  predicate Passes<C>(isa: Isa<C>, q: Request, m: Machine<C>) {
    && Fetches(isa, m) && !IsStop(q, isa.pc(m.cpu))
    && Loadable(q, m.memory, isa.loads(m.cpu, Window(isa, m)))
    && Storable(q, m.memory, Effect(isa, m).1)
  }

  function After<C>(isa: Isa<C>, q: Request, m: Machine<C>): Machine<C>
    requires Passes(isa, q, m)
  {
    var (cpu, stores) := Effect(isa, m);
    Machine(cpu, Written(m.memory, stores, |stores|))
  }

  /** An execution from its first machine to its last, which need not pass. */
  ghost predicate IsExecution<C(!new)>(isa: Isa<C>, q: Request, run: seq<Machine<C>>) {
    run != [] && forall i :: 0 <= i < |run| - 1 ==> Follows(isa, q, run[i], run[i + 1])
  }

  ghost predicate Follows<C(!new)>(isa: Isa<C>, q: Request, m: Machine<C>, m': Machine<C>) {
    Passes(isa, q, m) && m' == After(isa, q, m)
  }

  // ---------------------------------------------------------------- hooks and guards add nothing

  lemma {:induction false} LoadAllIff(q: Request, m: Memory, loads: seq<(nat, nat)>)
    ensures LoadAll(q, m, loads).0.None? <==> Loadable(q, m, loads)
    ensures Loadable(q, m, loads) ==> LoadAll(q, m, loads).1 == Values(m, loads)
    decreases loads
  {
    if loads != [] {
      LoadAllIff(q, m, loads[1..]);
      ReadAllowedIff(q, loads[0].0, loads[0].1);
      RestIsLoadable(q, m, loads);
      if Loadable(q, m, loads) {
        assert Values(m, loads) == [Read(m, loads[0].0, loads[0].1)] + Values(m, loads[1..]);
      }
    }
  }

  lemma ReadAllowedIff(q: Request, at: nat, size: nat)
    ensures (q.strictReads ==> ReadAllowed(q, at, size)) <==> MayRead(q, at, size)
  {
  }

  lemma RestIsLoadable(q: Request, m: Memory, loads: seq<(nat, nat)>)
    requires loads != []
    ensures Loadable(q, m, loads) <==>
            Mapped(m, loads[0].0, loads[0].1) && MayRead(q, loads[0].0, loads[0].1) && Loadable(q, m, loads[1..])
  {
    if Mapped(m, loads[0].0, loads[0].1) && MayRead(q, loads[0].0, loads[0].1) && Loadable(q, m, loads[1..]) {
      forall k | 0 <= k < |loads| ensures Mapped(m, loads[k].0, loads[k].1) && MayRead(q, loads[k].0, loads[k].1) {
        assert k > 0 ==> loads[1..][k - 1] == loads[k];
      }
    }
  }

  lemma {:induction false} WrittenFromFront(m: Memory, stores: seq<Store>, n: nat)
    requires 0 < n <= |stores|
    ensures Written(m, stores, n) == Written(Write(m, stores[0].0, stores[0].1), stores[1..], n - 1)
  {
    if n > 1 {
      WrittenFromFront(m, stores, n - 1);
    }
  }

  lemma RestIsStorable(q: Request, m: Memory, m': Memory, stores: seq<Store>)
    requires stores != [] && m.Keys == m'.Keys
    ensures Storable(q, m, stores) <==>
            Mapped(m, stores[0].0, |stores[0].1|) && MayWrite(q, stores[0]) && Storable(q, m', stores[1..])
  {
    forall k | 0 <= k < |stores|
      ensures Mapped(m', stores[k].0, |stores[k].1|) <==> Mapped(m, stores[k].0, |stores[k].1|)
    {
      SameKeysSameMapped(m, m', stores[k].0, |stores[k].1|);
    }
    if Mapped(m, stores[0].0, |stores[0].1|) && MayWrite(q, stores[0]) && Storable(q, m', stores[1..]) {
      forall k | 0 <= k < |stores| ensures Mapped(m, stores[k].0, |stores[k].1|) && MayWrite(q, stores[k]) {
        assert k > 0 ==> stores[1..][k - 1] == stores[k];
      }
    }
  }

  /** The stores have landed in `p'` and are in its log of writes. */
  ghost predicate Landed<C>(p: Progress<C>, stores: seq<Store>, p': Progress<C>) {
    && p'.memory == Written(p.memory, stores, |stores|) && p'.writes == p.writes + stores
    && p'.cpu == p.cpu && p'.trace == p.trace && p'.executed == p.executed
  }

  lemma LandedOneMore<C>(q: Request, lands: bool, p: Progress<C>, stores: seq<Store>, p': Progress<C>)
    requires stores != [] && Mapped(p.memory, stores[0].0, |stores[0].1|) && MayWrite(q, stores[0])
    requires Landed(StoreOne(q, lands, p, stores[0]).1, stores[1..], p')
    ensures Landed(p, stores, p')
  {
    WrittenFromFront(p.memory, stores, |stores|);
    assert stores == [stores[0]] + stores[1..];
  }

  /** The stores of an instruction all pass the guard exactly when each is permitted, and then all have landed. */
  lemma {:induction false} StoreAllIff<C>(q: Request, lands: bool, p: Progress<C>, stores: seq<Store>)
    ensures StoreAll(q, lands, p, stores).0.None? <==> Storable(q, p.memory, stores)
    ensures StoreAll(q, lands, p, stores).0.None? ==> Landed(p, stores, StoreAll(q, lands, p, stores).1)
    decreases stores
  {
    if stores != [] {
      var next := StoreOne(q, lands, p, stores[0]).1;
      RestIsStorable(q, p.memory, next.memory, stores);
      if Mapped(p.memory, stores[0].0, |stores[0].1|) && MayWrite(q, stores[0]) {
        StoreAllIff(q, lands, next, stores[1..]);
        if Storable(q, next.memory, stores[1..]) {
          LandedOneMore(q, lands, p, stores, StoreAll(q, lands, next, stores[1..]).1);
        }
      }
    }
  }

  /** A step of the replay machine that goes on is an instruction that passes. */
  lemma StepIff<C(!new)>(isa: Isa<C>, q: Request, lands: bool, p: Progress<C>)
    ensures StepOnce(isa, q, lands, p).0.None? <==> Passes(isa, q, Machine(p.cpu, p.memory))
    ensures Passes(isa, q, Machine(p.cpu, p.memory)) ==>
      var m, p' := Machine(p.cpu, p.memory), StepOnce(isa, q, lands, p).1;
      && Machine(p'.cpu, p'.memory) == After(isa, q, m) && p'.writes == p.writes + Effect(isa, m).1
      && p'.trace == p.trace + [isa.pc(p.cpu)] && p'.executed == p.executed + [isa.pc(p.cpu)]
  {
    var at := isa.pc(p.cpu);
    if at != STOP + 2 && Mapped(p.memory, at, 4) {
      var window := Read(p.memory, at, 4);
      var loads := isa.loads(p.cpu, window);
      LoadAllIff(q, p.memory, loads);
      if Loadable(q, p.memory, loads) {
        var (cpu, stores) := isa.execute(p.cpu, window, Values(p.memory, loads));
        var visited := p.(executed := p.executed + [at], trace := p.trace + [at], cpu := cpu);
        StoreAllIff(q, lands, visited, stores);
      }
    }
  }

  /** The first access that fails is the `n`th load, because nothing is mapped there or it may not be read. */
  predicate LoadFails(q: Request, m: Memory, loads: seq<(nat, nat)>, n: nat, e: End) {
    && n < |loads| && Loadable(q, m, loads[..n])
    && var (at, size) := loads[n];
    if Mapped(m, at, size) then !MayRead(q, at, size) && e == UnprovidedRead else e == Unmapped
  }

  predicate StoreFails(q: Request, m: Memory, stores: seq<Store>, n: nat, e: End) {
    && n < |stores| && Storable(q, m, stores[..n])
    && if Mapped(m, stores[n].0, |stores[n].1|) then !MayWrite(q, stores[n]) && e == UnintendedWrite else e == Unmapped
  }

  /** An access of the instruction fails. */
  ghost predicate AccessFails<C(!new)>(isa: Isa<C>, q: Request, m: Machine<C>, e: End)
    requires Mapped(m.memory, isa.pc(m.cpu), 4)
  {
    var loads := isa.loads(m.cpu, Window(isa, m));
    || (exists n :: LoadFails(q, m.memory, loads, n, e))
    || (Loadable(q, m.memory, loads) && exists n :: StoreFails(q, m.memory, Effect(isa, m).1, n, e))
  }

  /** No instruction is executed after `m`, and this is why. */
  ghost predicate Ends<C(!new)>(isa: Isa<C>, q: Request, m: Machine<C>, e: End) {
    var at := isa.pc(m.cpu);
    if at == STOP + 2 then e == Exhausted
    else if !Mapped(m.memory, at, 4) then e == Unmapped
    else if !isa.legal(Window(isa, m)) then e == Illegal
    else if IsStop(q, at) then e == Reached(at)
    else AccessFails(isa, q, m, e)
  }

  lemma FirstLoadFails(q: Request, m: Memory, loads: seq<(nat, nat)>, e: End)
    requires loads != [] && !(Mapped(m, loads[0].0, loads[0].1) && MayRead(q, loads[0].0, loads[0].1))
    ensures (exists n :: LoadFails(q, m, loads, n, e))
       <==> e == if Mapped(m, loads[0].0, loads[0].1) then UnprovidedRead else Unmapped
  {
    assert LoadFails(q, m, loads, 0, if Mapped(m, loads[0].0, loads[0].1) then UnprovidedRead else Unmapped);
    forall n: nat | LoadFails(q, m, loads, n, e) ensures n == 0 {
      if n > 0 {
        RestIsLoadable(q, m, loads[..n]);
      }
    }
  }

  lemma LaterLoadFails(q: Request, m: Memory, loads: seq<(nat, nat)>, n: nat, e: End)
    requires loads != [] && Mapped(m, loads[0].0, loads[0].1) && MayRead(q, loads[0].0, loads[0].1)
    ensures !LoadFails(q, m, loads, 0, e)
    ensures LoadFails(q, m, loads, n + 1, e) <==> LoadFails(q, m, loads[1..], n, e)
  {
    if n + 1 < |loads| {
      RestIsLoadable(q, m, loads[..n + 1]);
      assert loads[..n + 1][1..] == loads[1..][..n];
    }
  }

  lemma {:induction false} LoadFailsIff(q: Request, m: Memory, loads: seq<(nat, nat)>, e: End)
    ensures LoadAll(q, m, loads).0 == Some(e) <==> exists n :: LoadFails(q, m, loads, n, e)
    decreases loads
  {
    if loads != [] {
      ReadAllowedIff(q, loads[0].0, loads[0].1);
      if Mapped(m, loads[0].0, loads[0].1) && MayRead(q, loads[0].0, loads[0].1) {
        LoadFailsIff(q, m, loads[1..], e);
        forall n: nat ensures LoadFails(q, m, loads, n + 1, e) <==> LoadFails(q, m, loads[1..], n, e) {
          LaterLoadFails(q, m, loads, n, e);
        }
        LaterLoadFails(q, m, loads, 0, e);
        if n: nat :| LoadFails(q, m, loads, n, e) {
          assert LoadFails(q, m, loads[1..], n - 1, e);
        }
        if n: nat :| LoadFails(q, m, loads[1..], n, e) {
          assert LoadFails(q, m, loads, n + 1, e);
        }
      } else {
        FirstLoadFails(q, m, loads, e);
      }
    }
  }

  lemma FirstStoreFails(q: Request, m: Memory, stores: seq<Store>, e: End)
    requires stores != [] && !(Mapped(m, stores[0].0, |stores[0].1|) && MayWrite(q, stores[0]))
    ensures (exists n :: StoreFails(q, m, stores, n, e))
       <==> e == if Mapped(m, stores[0].0, |stores[0].1|) then UnintendedWrite else Unmapped
  {
    assert StoreFails(q, m, stores, 0, if Mapped(m, stores[0].0, |stores[0].1|) then UnintendedWrite else Unmapped);
    forall n: nat | StoreFails(q, m, stores, n, e) ensures n == 0 {
      if n > 0 {
        RestIsStorable(q, m, m, stores[..n]);
      }
    }
  }

  lemma LaterStoreFails(q: Request, m: Memory, m': Memory, stores: seq<Store>, n: nat, e: End)
    requires stores != [] && Mapped(m, stores[0].0, |stores[0].1|) && MayWrite(q, stores[0]) && m.Keys == m'.Keys
    ensures !StoreFails(q, m, stores, 0, e)
    ensures StoreFails(q, m, stores, n + 1, e) <==> StoreFails(q, m', stores[1..], n, e)
  {
    if n + 1 < |stores| {
      RestIsStorable(q, m, m', stores[..n + 1]);
      assert stores[..n + 1][1..] == stores[1..][..n];
      SameKeysSameMapped(m, m', stores[n + 1].0, |stores[n + 1].1|);
    }
  }

  lemma {:induction false} StoreFailsIff<C>(q: Request, lands: bool, p: Progress<C>, stores: seq<Store>, e: End)
    ensures StoreAll(q, lands, p, stores).0 == Some(e) <==> exists n :: StoreFails(q, p.memory, stores, n, e)
    decreases stores
  {
    if stores != [] {
      var m := p.memory;
      if Mapped(m, stores[0].0, |stores[0].1|) && MayWrite(q, stores[0]) {
        var next := StoreOne(q, lands, p, stores[0]).1;
        StoreFailsIff(q, lands, next, stores[1..], e);
        forall n: nat ensures StoreFails(q, m, stores, n + 1, e) <==> StoreFails(q, next.memory, stores[1..], n, e) {
          LaterStoreFails(q, m, next.memory, stores, n, e);
        }
        LaterStoreFails(q, m, next.memory, stores, 0, e);
        if n: nat :| StoreFails(q, m, stores, n, e) {
          assert StoreFails(q, next.memory, stores[1..], n - 1, e);
        }
        if n: nat :| StoreFails(q, next.memory, stores[1..], n, e) {
          assert StoreFails(q, m, stores, n + 1, e);
        }
      } else {
        FirstStoreFails(q, m, stores, e);
      }
    }
  }

  lemma AccessFailsIff<C(!new)>(isa: Isa<C>, q: Request, lands: bool, p: Progress<C>, visited: Progress<C>, e: End)
    requires Mapped(p.memory, isa.pc(p.cpu), 4) && visited.memory == p.memory
    ensures var loads := isa.loads(p.cpu, Read(p.memory, isa.pc(p.cpu), 4));
      var (end, values) := LoadAll(q, p.memory, loads);
      var (cpu, stores) := isa.execute(p.cpu, Read(p.memory, isa.pc(p.cpu), 4), values);
      AccessFails(isa, q, Machine(p.cpu, p.memory), e) <==>
      (if end.Some? then end else StoreAll(q, lands, visited.(cpu := cpu), stores).0) == Some(e)
  {
    var m := Machine(p.cpu, p.memory);
    var loads := isa.loads(m.cpu, Window(isa, m));
    LoadAllIff(q, p.memory, loads);
    LoadFailsIff(q, p.memory, loads, e);
    if Loadable(q, p.memory, loads) {
      var (cpu, stores) := Effect(isa, m);
      StoreFailsIff(q, lands, visited.(cpu := cpu), stores, e);
    }
  }

  /** A step of the replay machine ends the run exactly for the reason that the plain machine has. */
  lemma EndIff<C(!new)>(isa: Isa<C>, q: Request, lands: bool, p: Progress<C>, e: End)
    ensures StepOnce(isa, q, lands, p).0 == Some(e) <==> Ends(isa, q, Machine(p.cpu, p.memory), e)
  {
    var at := isa.pc(p.cpu);
    if Mapped(p.memory, at, 4) {
      var visited := p.(executed := p.executed + [at], trace := p.trace + [at]);
      AccessFailsIff(isa, q, lands, p, visited, e);
    }
  }

  lemma StopsHere<C(!new)>(isa: Isa<C>, q: Request, lands: bool, p: Progress<C>, t: nat)
    requires Ends(isa, q, Machine(p.cpu, p.memory), Reached(t))
    ensures t == isa.pc(p.cpu)
    ensures StepOnce(isa, q, lands, p).1 == p.(trace := p.trace + [t], executed := p.executed + [t])
  {
  }

  // ---------------------------------------------------------------- a whole execution

  function Places<C>(isa: Isa<C>, run: seq<Machine<C>>): seq<int> {
    seq(|run|, i requires 0 <= i < |run| => isa.pc(run[i].cpu))
  }

  /** The stores of the first `n` instructions, in order. */
  ghost function StoresOf<C(!new)>(isa: Isa<C>, q: Request, run: seq<Machine<C>>, n: nat): seq<Store>
    requires IsExecution(isa, q, run) && n < |run|
  {
    if n == 0 then [] else StoresOf(isa, q, run, n - 1) + (assert Follows(isa, q, run[n - 1], run[n - 1 + 1]);
                                                           Effect(isa, run[n - 1]).1)
  }

  /** What emulation has added to `p` when it stops at the end of `run`. */
  ghost predicate Adds<C(!new)>(isa: Isa<C>, q: Request, p: Progress<C>, run: seq<Machine<C>>, p': Progress<C>) {
    && IsExecution(isa, q, run)
    && Machine(p'.cpu, p'.memory) == run[|run| - 1]
    && p'.trace == p.trace + Places(isa, run) && p'.executed == p.executed + Places(isa, run)
    && p'.writes == p.writes + StoresOf(isa, q, run, |run| - 1)
  }

  /** Within the budget the last machine ends it, or the budget is used up. */
  ghost predicate EndsWith<C(!new)>(isa: Isa<C>, q: Request, run: seq<Machine<C>>, budget: nat, e: End)
    requires run != []
  {
    (|run| <= budget && Ends(isa, q, run[|run| - 1], e)) || (|run| == budget + 1 && e == Exhausted)
  }

  /** An execution from `m` that ends with `e`. */
  ghost predicate Gets<C(!new)>(isa: Isa<C>, q: Request, m: Machine<C>, budget: nat, e: End, run: seq<Machine<C>>) {
    IsExecution(isa, q, run) && run[0] == m && EndsWith(isa, q, run, budget, e)
  }

  lemma RestIsExecution<C(!new)>(isa: Isa<C>, q: Request, run: seq<Machine<C>>)
    requires IsExecution(isa, q, run) && |run| > 1
    ensures Follows(isa, q, run[0], run[1]) && IsExecution(isa, q, run[1..])
  {
    assert Follows(isa, q, run[0], run[0 + 1]);
    forall i | 0 <= i < |run| - 2 ensures Follows(isa, q, run[1..][i], run[1..][i + 1]) {
      assert Follows(isa, q, run[i + 1], run[i + 1 + 1]);
    }
  }

  lemma OneMoreInFront<C(!new)>(isa: Isa<C>, q: Request, m: Machine<C>, run: seq<Machine<C>>)
    requires IsExecution(isa, q, run) && Follows(isa, q, m, run[0])
    ensures IsExecution(isa, q, [m] + run)
  {
    var more := [m] + run;
    forall i | 0 <= i < |more| - 1 ensures Follows(isa, q, more[i], more[i + 1]) {
      assert i > 0 ==> Follows(isa, q, run[i - 1], run[i - 1 + 1]);
    }
  }

  lemma {:induction false} StoresFromFront<C(!new)>(isa: Isa<C>, q: Request, run: seq<Machine<C>>, n: nat)
    requires IsExecution(isa, q, run) && 0 < n < |run|
    ensures Follows(isa, q, run[0], run[1]) && IsExecution(isa, q, run[1..])
    ensures StoresOf(isa, q, run, n) == Effect(isa, run[0]).1 + StoresOf(isa, q, run[1..], n - 1)
  {
    RestIsExecution(isa, q, run);
    if n > 1 {
      StoresFromFront(isa, q, run, n - 1);
    }
  }

  lemma {:induction false} EmulationExecutes<C(!new)>(isa: Isa<C>, q: Request, lands: bool, p: Progress<C>, budget: nat)
    returns (run: seq<Machine<C>>)
    ensures Gets(isa, q, Machine(p.cpu, p.memory), budget, Emulate(isa, q, lands, p, budget).0, run)
    decreases budget
  {
    var m := Machine(p.cpu, p.memory);
    run := [m];
    if budget > 0 {
      var step := StepOnce(isa, q, lands, p);
      if step.0.None? {
        StepIff(isa, q, lands, p);
        var rest := EmulationExecutes(isa, q, lands, step.1, budget - 1);
        OneMoreInFront(isa, q, m, rest);
        run := [m] + rest;
      } else {
        EndIff(isa, q, lands, p, step.0.value);
      }
    }
  }

  lemma RestGets<C(!new)>(isa: Isa<C>, q: Request, m: Machine<C>, budget: nat, e: End, run: seq<Machine<C>>)
    requires Gets(isa, q, m, budget, e, run) && |run| > 1
    ensures Passes(isa, q, m) && budget > 0 && Gets(isa, q, After(isa, q, m), budget - 1, e, run[1..])
  {
    RestIsExecution(isa, q, run);
  }

  lemma {:induction false} ExecutionIsEmulated<C(!new)>(isa: Isa<C>, q: Request, lands: bool, p: Progress<C>,
                                                        budget: nat, e: End, run: seq<Machine<C>>)
    requires Gets(isa, q, Machine(p.cpu, p.memory), budget, e, run)
    ensures Emulate(isa, q, lands, p, budget).0 == e
    decreases budget
  {
    if |run| > 1 {
      RestGets(isa, q, Machine(p.cpu, p.memory), budget, e, run);
      StepIff(isa, q, lands, p);
      ExecutionIsEmulated(isa, q, lands, StepOnce(isa, q, lands, p).1, budget - 1, e, run[1..]);
    } else if budget > 0 {
      EndIff(isa, q, lands, p, e);
    }
  }

  lemma AddsOneMore<C(!new)>(isa: Isa<C>, q: Request, p: Progress<C>, next: Progress<C>, run: seq<Machine<C>>,
                             p': Progress<C>)
    requires IsExecution(isa, q, run) && |run| > 1 && run[0] == Machine(p.cpu, p.memory)
    requires Passes(isa, q, run[0]) && next.writes == p.writes + Effect(isa, run[0]).1
    requires next.trace == p.trace + [isa.pc(p.cpu)] && next.executed == p.executed + [isa.pc(p.cpu)]
    requires Adds(isa, q, next, run[1..], p')
    ensures Adds(isa, q, p, run, p')
  {
    StoresFromFront(isa, q, run, |run| - 1);
    assert Places(isa, run) == [isa.pc(p.cpu)] + Places(isa, run[1..]);
  }

  lemma {:induction false} EmulationAdds<C(!new)>(isa: Isa<C>, q: Request, lands: bool, p: Progress<C>, budget: nat,
                                                  t: nat, run: seq<Machine<C>>)
    requires Gets(isa, q, Machine(p.cpu, p.memory), budget, Reached(t), run)
    ensures Adds(isa, q, p, run, Emulate(isa, q, lands, p, budget).1)
    decreases budget
  {
    var m := Machine(p.cpu, p.memory);
    if |run| > 1 {
      RestGets(isa, q, m, budget, Reached(t), run);
      StepIff(isa, q, lands, p);
      var next := StepOnce(isa, q, lands, p).1;
      EmulationAdds(isa, q, lands, next, budget - 1, t, run[1..]);
      AddsOneMore(isa, q, p, next, run, Emulate(isa, q, lands, p, budget).1);
    } else {
      EndIff(isa, q, lands, p, Reached(t));
      StopsHere(isa, q, lands, p, t);
      assert run == [m] && Places(isa, run) == [t];
    }
  }

  // ---------------------------------------------------------------- a case

  /** The thirteen registers a case starts with. */
  predicate HoldsRegisters(q: Request, registers: seq<word>) {
    |registers| == 13 && forall i :: 0 <= i < 13 ==>
      registers[i] == if i in q.registers then q.registers[i] else Wrap(0x7654_0000 + i * 0x101)
  }

  /** The machine a case starts with, when the replay machine was built with `memory` and `context`. */
  ghost predicate Prepared<C(!new)>(isa: Isa<C>, q: Request, memory: Memory, context: C, m: Machine<C>) {
    && HoldsInputs(q, memory, m.memory)
    && exists registers :: HoldsRegisters(q, registers) && m.cpu == isa.start(context, q.site, registers, q.nzcv)
  }

  predicate Observable(q: Request, m: Memory) {
    forall k :: 0 <= k < |q.observe| ==> Mapped(m, q.observe[k].0, q.observe[k].1)
  }

  /** The end of a case that stopped at `t`: the control bits and the observed ranges decide. */
  predicate StopEnds<C>(isa: Isa<C>, q: Request, m: Machine<C>, t: nat, e: End) {
    if isa.cpsr(m.cpu) % 0x100_0000 != (if q.stopThumb then 0x30 else 0x10) then e == ControlChanged
    else e == if Observable(q, m.memory) then Reached(t) else Unmapped
  }

  /** `run` is the execution of the case, and the case ends with `e`. */
  ghost predicate CaseRun<C(!new)>(isa: Isa<C>, q: Request, memory: Memory, context: C, run: seq<Machine<C>>, e: End) {
    && IsExecution(isa, q, run) && Prepared(isa, q, memory, context, run[0])
    && var last := run[|run| - 1];
    || (exists t :: EndsWith(isa, q, run, BUDGET, Reached(t)) && StopEnds(isa, q, last, t, e))
    || (!e.Reached? && EndsWith(isa, q, run, BUDGET, e))
  }

  /** Memory that holds the inputs is determined by them and by what was there before. */
  lemma InputsDetermineMemory(q: Request, memory: Memory, m: Memory, m': Memory)
    requires HoldsInputs(q, memory, m) && HoldsInputs(q, memory, m')
    ensures m == m'
  {
    forall a | a in m ensures a in m' && m[a] == m'[a] {
      assert a in memory && a in m';
      if NoneCovers(q.memory, 0, a) {
        if NoneSets(q, 0, a) {
        } else {
          var k := LastSetting(q, |q.settings|, a);
        }
      } else {
        var k := LastCover(q.memory, |q.memory|, a);
      }
    }
  }

  lemma {:induction false} LastSetting(q: Request, n: nat, a: nat) returns (k: nat)
    requires n <= |q.settings| && NoneSets(q, n, a) && !NoneSets(q, 0, a)
    ensures k < |q.settings| && a == q.flags + q.settings[k].0 && NoneSets(q, k + 1, a)
    decreases n
  {
    if q.flags + q.settings[n - 1].0 == a {
      k := n - 1;
    } else {
      k := LastSetting(q, n - 1, a);
    }
  }

  lemma {:induction false} LastCover(entries: seq<Store>, n: nat, a: nat) returns (k: nat)
    requires n <= |entries| && NoneCovers(entries, n, a) && !NoneCovers(entries, 0, a)
    ensures IsLastCover(entries, k, a)
    decreases n
  {
    if Covers(entries[n - 1], a) {
      k := n - 1;
    } else {
      k := LastCover(entries, n - 1, a);
    }
  }

  lemma OnlyTheseRegisters(q: Request)
    ensures forall registers :: HoldsRegisters(q, registers) <==> registers == InitialRegisters(q.registers)
  {
  }

  /** A prepared machine is what seeding makes of the fresh machine. */
  lemma SeedingPrepares<C(!new)>(isa: Isa<C>, q: Request, memory: Memory, context: C, m: Machine<C>)
    requires InputsMapped(q, memory)
    ensures var (seeded, p) := SeedAll(Begin(isa, q, memory, context), Seeds(q));
      seeded && (Prepared(isa, q, memory, context, m) <==> m == Machine(p.cpu, p.memory))
  {
    var start := Begin(isa, q, memory, context);
    SeedingHoldsInputs(q, start);
    SeedingKeepsRest(start, Seeds(q));
    var p := SeedAll(start, Seeds(q)).1;
    OnlyTheseRegisters(q);
    if Prepared(isa, q, memory, context, m) {
      InputsDetermineMemory(q, memory, m.memory, p.memory);
    }
  }

  lemma {:induction false} SeedingKeepsRest<C>(p: Progress<C>, seeds: seq<Store>)
    ensures SeedAll(p, seeds).1 == p.(memory := SeedAll(p, seeds).1.memory, log := SeedAll(p, seeds).1.log)
    decreases seeds
  {
    if seeds != [] && Mapped(p.memory, seeds[0].0, |seeds[0].1|) {
      SeedingKeepsRest(SeedOne(p, seeds[0]), seeds[1..]);
    }
  }

  lemma {:induction false} ObserveIff(m: Memory, ranges: seq<(nat, nat)>)
    ensures ObserveAll(m, ranges).Some? <==> forall k :: 0 <= k < |ranges| ==> Mapped(m, ranges[k].0, ranges[k].1)
    ensures ObserveAll(m, ranges).Some? ==> ObserveAll(m, ranges).value == Values(m, ranges)
    decreases ranges
  {
    if ranges != [] {
      ObserveIff(m, ranges[1..]);
      if forall k :: 0 <= k < |ranges| ==> Mapped(m, ranges[k].0, ranges[k].1) {
        assert forall k :: 0 <= k < |ranges| - 1 ==> ranges[1..][k] == ranges[k + 1];
        assert Values(m, ranges) == [Read(m, ranges[0].0, ranges[0].1)] + Values(m, ranges[1..]);
      }
    }
  }

  lemma ConclusionIff<C(!new)>(isa: Isa<C>, q: Request, end: End, p: Progress<C>, e: End)
    ensures Conclude(isa, q, end, p).end == e <==>
            if end.Reached? then StopEnds(isa, q, Machine(p.cpu, p.memory), end.target, e) else end == e
  {
    ObserveIff(p.memory, q.observe);
  }

  /** Every execution of a case ends as the replay machine does. */
  lemma CaseRunEnds<C(!new)>(isa: Isa<C>, q: Request, lands: bool, memory: Memory, context: C,
                             run: seq<Machine<C>>, e: End)
    requires InputsMapped(q, memory) && CaseRun(isa, q, memory, context, run, e)
    ensures FreshRun(isa, q, lands, memory, context).end == e
  {
    SeedingPrepares(isa, q, memory, context, run[0]);
    var p := SeedAll(Begin(isa, q, memory, context), Seeds(q)).1;
    var last := run[|run| - 1];
    if t: nat :| EndsWith(isa, q, run, BUDGET, Reached(t)) && StopEnds(isa, q, last, t, e) {
      ExecutionIsEmulated(isa, q, lands, p, BUDGET, Reached(t), run);
      EmulationAdds(isa, q, lands, p, BUDGET, t, run);
      ConclusionIff(isa, q, Reached(t), Whole(isa, q, lands, memory, context).1, e);
    } else {
      ExecutionIsEmulated(isa, q, lands, p, BUDGET, e, run);
      ConclusionIff(isa, q, e, Whole(isa, q, lands, memory, context).1, e);
    }
  }

  lemma CaseHasRun<C(!new)>(isa: Isa<C>, q: Request, lands: bool, memory: Memory, context: C)
    returns (run: seq<Machine<C>>)
    requires InputsMapped(q, memory)
    ensures CaseRun(isa, q, memory, context, run, FreshRun(isa, q, lands, memory, context).end)
  {
    var p := SeedAll(Begin(isa, q, memory, context), Seeds(q)).1;
    var (end, p') := Emulate(isa, q, lands, p, BUDGET);
    SeedingPrepares(isa, q, memory, context, Machine(p.cpu, p.memory));
    run := EmulationExecutes(isa, q, lands, p, BUDGET);
    var e := FreshRun(isa, q, lands, memory, context).end;
    ConclusionIff(isa, q, end, p', e);
    if end.Reached? {
      EmulationAdds(isa, q, lands, p, BUDGET, end.target, run);
      assert EndsWith(isa, q, run, BUDGET, Reached(end.target)) && StopEnds(isa, q, run[|run| - 1], end.target, e);
    }
  }

  /** How a case ends, told by the execution of a plain processor on memory that holds the inputs. */
  lemma CaseEndsIff<C(!new)>(isa: Isa<C>, q: Request, lands: bool, memory: Memory, context: C, e: End)
    ensures FreshRun(isa, q, lands, memory, context).end == e <==>
            if InputsMapped(q, memory) then exists run :: CaseRun(isa, q, memory, context, run, e) else e == Unmapped
  {
    if InputsMapped(q, memory) {
      var run := CaseHasRun(isa, q, lands, memory, context);
      forall run | CaseRun(isa, q, memory, context, run, e)
        ensures FreshRun(isa, q, lands, memory, context).end == e
      {
        CaseRunEnds(isa, q, lands, memory, context, run, e);
      }
    } else {
      SeedingHoldsInputs(q, Begin(isa, q, memory, context));
    }
  }

  /** Two instructions of the execution follow each other. */
  predicate Consecutive(places: seq<int>, e: Edge) {
    exists i :: 0 <= i < |places| - 1 && places[i] == e.0 && places[i + 1] == e.1
  }

  /** The recorded instructions and edges are those of the execution. */
  ghost predicate Records(places: seq<int>, instructions: set<int>, edges: set<Edge>) {
    (forall at :: at in instructions <==> at in places) && forall e :: e in edges <==> Consecutive(places, e)
  }

  lemma PlacesAreRecorded(places: seq<int>)
    ensures Records(places, Visited(places), Pairs(places))
  {
    forall e: Edge ensures e in Pairs(places) <==> Consecutive(places, e) {
      if i :| 0 <= i < |places| - 1 && places[i] == e.0 && places[i + 1] == e.1 {
        assert EdgeAt(places, i) == e;
      }
    }
  }

  lemma StartsEmpty<T>(s: seq<T>)
    ensures [] + s == s
  {
  }

  /** What the caller gets from an execution that stopped. */
  ghost predicate Reports<C(!new)>(isa: Isa<C>, q: Request, run: seq<Machine<C>>, o: Outcome<C>)
    requires IsExecution(isa, q, run)
  {
    var last, places := run[|run| - 1], Places(isa, run);
    && o.cpu == last.cpu && HoldsRegisters(q, o.before)
    && o.trace == places && o.writes == StoresOf(isa, q, run, |run| - 1)
    && Records(places, o.instructions, o.edges)
    && Observable(q, last.memory) && o.observed == Values(last.memory, q.observe)
  }

  lemma ConclusionReports<C(!new)>(isa: Isa<C>, q: Request, p: Progress<C>, run: seq<Machine<C>>, p': Progress<C>,
                                   t: nat)
    requires Adds(isa, q, p, run, p') && p.trace == [] && p.executed == [] && p.writes == []
    requires Conclude(isa, q, Reached(t), p').end == Reached(t)
    ensures Reports(isa, q, run, Conclude(isa, q, Reached(t), p'))
  {
    ObserveIff(p'.memory, q.observe);
    PlacesAreRecorded(Places(isa, run));
    StartsEmpty(Places(isa, run));
    StartsEmpty(StoresOf(isa, q, run, |run| - 1));
    assert HoldsRegisters(q, InitialRegisters(q.registers));
  }

  lemma ReachedRun<C(!new)>(isa: Isa<C>, q: Request, memory: Memory, context: C, run: seq<Machine<C>>, t: nat)
    requires CaseRun(isa, q, memory, context, run, Reached(t))
    ensures EndsWith(isa, q, run, BUDGET, Reached(t)) && isa.pc(run[|run| - 1].cpu) == t
  {
    var last := run[|run| - 1];
    var t': nat :| EndsWith(isa, q, run, BUDGET, Reached(t')) && StopEnds(isa, q, last, t', Reached(t));
  }

  /** What a case that reaches a boundary returns. */
  lemma CaseReturns<C(!new)>(isa: Isa<C>, q: Request, lands: bool, memory: Memory, context: C, run: seq<Machine<C>>,
                             t: nat)
    requires InputsMapped(q, memory) && CaseRun(isa, q, memory, context, run, Reached(t))
    ensures FreshRun(isa, q, lands, memory, context).end == Reached(t) && isa.pc(run[|run| - 1].cpu) == t
    ensures Reports(isa, q, run, FreshRun(isa, q, lands, memory, context))
  {
    CaseRunEnds(isa, q, lands, memory, context, run, Reached(t));
    ReachedRun(isa, q, memory, context, run, t);
    SeedingPrepares(isa, q, memory, context, run[0]);
    var start := Begin(isa, q, memory, context);
    SeedingKeepsRest(start, Seeds(q));
    var p := SeedAll(start, Seeds(q)).1;
    EmulationAdds(isa, q, lands, p, BUDGET, t, run);
    ExecutionIsEmulated(isa, q, lands, p, BUDGET, Reached(t), run);
    ConclusionReports(isa, q, p, run, Emulate(isa, q, lands, p, BUDGET).1, t);
  }
}
