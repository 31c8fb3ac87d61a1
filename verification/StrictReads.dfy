/**
 Strict reads make a run a function of its declared inputs: memory outside the
 flash, the stack window, the flags and the declared ranges has no influence.
 */
module StrictReads {
  import opened Images
  import opened Replay

  predicate Declared(q: Request, a: nat) {
    || a < q.flashSize
    || STACK - 0x100 <= a < STACK
    || q.flags <= a < q.flags + 7
    || exists i :: 0 <= i < |q.memory| && q.memory[i].0 <= a < q.memory[i].0 + |q.memory[i].1|
  }

  /** The same bytes are mapped, and the declared ones hold the same values. */
  ghost predicate Agree(q: Request, m: Memory, m': Memory) {
    m.Keys == m'.Keys && forall a :: a in m && Declared(q, a) ==> m[a] == m'[a]
  }

  /** All but the memory is the same. */
  ghost predicate SameProcessor<C(!new)>(p: Progress<C>, p': Progress<C>) {
    p.cpu == p'.cpu && p.writes == p'.writes && p.trace == p'.trace && p.executed == p'.executed
  }

  /** Two runs that so far differ in undeclared memory only. */
  ghost predicate Alike<C(!new)>(q: Request, p: Progress<C>, p': Progress<C>) {
    SameProcessor(p, p') && Agree(q, p.memory, p'.memory)
  }

  lemma WriteKeepsAgreement(q: Request, m: Memory, m': Memory, at: nat, value: seq<byte>)
    requires Agree(q, m, m')
    ensures Agree(q, Write(m, at, value), Write(m', at, value))
  {
  }

  lemma AllowedReadsAgree(q: Request, m: Memory, m': Memory, at: nat, size: nat)
    requires Agree(q, m, m') && Mapped(m, at, size)
    requires ReadAllowed(q, at, size)
    ensures Mapped(m', at, size) && Read(m, at, size) == Read(m', at, size)
  {
    forall a | at <= a < at + size ensures a in m' && m[a] == m'[a] {
      assert Declared(q, a) && a in m;
    }
  }

  lemma MappedAgrees(q: Request, m: Memory, m': Memory, at: nat, size: nat)
    requires Agree(q, m, m')
    ensures Mapped(m, at, size) <==> Mapped(m', at, size)
  {
    assert forall a :: a in m <==> a in m';
  }

  // ---------------------------------------------------------------- seeding

  /** Memory that a run reads without having been given it: the flash and the stack window. */
  predicate Standing(q: Request, a: nat) {
    a < q.flashSize || STACK - 0x100 <= a < STACK
  }

  /** One of the first `n` seeds covers the byte. */
  ghost predicate Seeded(q: Request, n: nat, a: nat)
    requires n <= |Seeds(q)|
  {
    exists i :: 0 <= i < n && Covers(Seeds(q)[i], a)
  }

  /** The same bytes are mapped; standing memory and what the first `n` seeds cover hold the same values. */
  ghost predicate AgreeSeeded(q: Request, n: nat, m: Memory, m': Memory)
    requires n <= |Seeds(q)|
  {
    m.Keys == m'.Keys && forall a :: a in m && (Standing(q, a) || Seeded(q, n, a)) ==> m[a] == m'[a]
  }

  /** Once every input was seeded, declared memory agrees. */
  lemma SeededAgree(q: Request, m: Memory, m': Memory)
    requires AgreeSeeded(q, |Seeds(q)|, m, m')
    ensures Agree(q, m, m')
  {
    var seeds := Seeds(q);
    forall a | a in m && Declared(q, a) ensures m[a] == m'[a] {
      if !Standing(q, a) {
        if q.flags <= a < q.flags + 7 {
          assert Covers(seeds[0], a);
        } else {
          var i :| 0 <= i < |q.memory| && q.memory[i].0 <= a < q.memory[i].0 + |q.memory[i].1|;
          assert seeds[1 + |q.settings| + i] == q.memory[i];
          assert Covers(seeds[1 + |q.settings| + i], a);
        }
        assert Seeded(q, |seeds|, a);
      }
    }
  }

  lemma SeedOneMore(q: Request, n: nat, m: Memory, m': Memory)
    requires n < |Seeds(q)| && AgreeSeeded(q, n, m, m')
    ensures var (at, value) := Seeds(q)[n]; AgreeSeeded(q, n + 1, Write(m, at, value), Write(m', at, value))
  {
    var (at, value) := Seeds(q)[n];
    forall a | a in m && (Standing(q, a) || Seeded(q, n + 1, a))
      ensures Write(m, at, value)[a] == Write(m', at, value)[a]
    {
      if !Covers(Seeds(q)[n], a) {
        assert Standing(q, a) || Seeded(q, n, a);
      }
    }
  }

  lemma {:induction false} SeedsAlike<C(!new)>(q: Request, p: Progress<C>, p': Progress<C>, n: nat)
    requires n <= |Seeds(q)| && SameProcessor(p, p') && AgreeSeeded(q, n, p.memory, p'.memory)
    ensures var (seeded, r), (seeded', r') := SeedAll(p, Seeds(q)[n..]), SeedAll(p', Seeds(q)[n..]);
      seeded == seeded' && SameProcessor(r, r') && (seeded ==> Alike(q, r, r'))
    decreases |Seeds(q)| - n
  {
    if n == |Seeds(q)| {
      SeededAgree(q, p.memory, p'.memory);
    } else {
      var (at, value) := Seeds(q)[n];
      assert Seeds(q)[n..][0] == Seeds(q)[n] && Seeds(q)[n..][1..] == Seeds(q)[n + 1..];
      assert Mapped(p.memory, at, |value|) <==> Mapped(p'.memory, at, |value|) by {
        assert forall a :: a in p.memory <==> a in p'.memory;
      }
      if Mapped(p.memory, at, |value|) {
        SeedOneMore(q, n, p.memory, p'.memory);
        SeedsAlike(q, p.(log := p.log + [(at, Read(p.memory, at, |value|))], memory := Write(p.memory, at, value)),
                   p'.(log := p'.log + [(at, Read(p'.memory, at, |value|))], memory := Write(p'.memory, at, value)),
                     n + 1);
      }
    }
  }

  lemma {:induction false} LoadsAlike(q: Request, m: Memory, m': Memory, loads: seq<(nat, nat)>)
    requires q.strictReads && Agree(q, m, m')
    ensures LoadAll(q, m, loads) == LoadAll(q, m', loads)
    decreases loads
  {
    if loads != [] {
      var (at, size) := loads[0];
      MappedAgrees(q, m, m', at, size);
      if Mapped(m, at, size) && ReadAllowed(q, at, size) {
        AllowedReadsAgree(q, m, m', at, size);
        LoadsAlike(q, m, m', loads[1..]);
      }
    }
  }

  lemma {:induction false} StoresAlike<C(!new)>(q: Request, lands: bool, p: Progress<C>, p': Progress<C>,
                                         stores: seq<Store>)
    requires Alike(q, p, p')
    ensures StoreAll(q, lands, p, stores).0 == StoreAll(q, lands, p', stores).0
    ensures Alike(q, StoreAll(q, lands, p, stores).1, StoreAll(q, lands, p', stores).1)
    decreases stores
  {
    if stores != [] {
      MappedAgrees(q, p.memory, p'.memory, stores[0].0, |stores[0].1|);
      WriteKeepsAgreement(q, p.memory, p'.memory, stores[0].0, stores[0].1);
      StoresAlike(q, lands, StoreOne(q, lands, p, stores[0]).1, StoreOne(q, lands, p', stores[0]).1, stores[1..]);
    }
  }

  lemma {:induction false} StoresKeepHistory<C>(q: Request, lands: bool, p: Progress<C>, stores: seq<Store>)
    ensures StoreAll(q, lands, p, stores).1.executed == p.executed
    decreases stores
  {
    if stores != [] {
      StoresKeepHistory(q, lands, StoreOne(q, lands, p, stores[0]).1, stores[1..]);
    }
  }

  /** The same instruction, once fetched, does the same on both sides. */
  lemma FetchedAlike<C(!new)>(isa: Isa<C>, q: Request, lands: bool, p: Progress<C>, p': Progress<C>, at: nat,
                              window: seq<byte>)
    requires q.strictReads && Alike(q, p, p') && at == isa.pc(p.cpu) && at != STOP + 2
    requires Mapped(p.memory, at, 4) && Read(p.memory, at, 4) == window
    requires Mapped(p'.memory, at, 4) && Read(p'.memory, at, 4) == window
    ensures StepOnce(isa, q, lands, p).0 == StepOnce(isa, q, lands, p').0
    ensures Alike(q, StepOnce(isa, q, lands, p).1, StepOnce(isa, q, lands, p').1)
  {
    LoadsAlike(q, p.memory, p'.memory, isa.loads(p.cpu, window));
    var (cpu, stores) := isa.execute(p.cpu, window, LoadAll(q, p.memory, isa.loads(p.cpu, window)).1);
    var visited := p.(executed := p.executed + [at], trace := p.trace + [at], cpu := cpu);
    StoresAlike(q, lands, visited, p'.(executed := p.executed + [at], trace := p.trace + [at], cpu := cpu), stores);
  }

  /** An instruction whose bytes are declared runs the same on both sides. */
  lemma StepAlike<C(!new)>(isa: Isa<C>, q: Request, lands: bool, p: Progress<C>, p': Progress<C>)
    requires q.strictReads && Alike(q, p, p')
    requires FetchedFromFlash(q, StepOnce(isa, q, lands, p).1.executed)
    ensures StepOnce(isa, q, lands, p).0 == StepOnce(isa, q, lands, p').0
    ensures Alike(q, StepOnce(isa, q, lands, p).1, StepOnce(isa, q, lands, p').1)
  {
    var at := isa.pc(p.cpu);
    MappedAgrees(q, p.memory, p'.memory, at, 4);
    if at != STOP + 2 && Mapped(p.memory, at, 4) {
      StepRecords(isa, q, lands, p);
      assert StepOnce(isa, q, lands, p).1.executed[|p.executed|] == at;
      AllowedReadsAgree(q, p.memory, p'.memory, at, 4);
      FetchedAlike(isa, q, lands, p, p', at, Read(p.memory, at, 4));
    }
  }

  /** A step records at most one instruction, the one at the program counter. */
  lemma StepRecords<C>(isa: Isa<C>, q: Request, lands: bool, p: Progress<C>)
    ensures var at, after := isa.pc(p.cpu), StepOnce(isa, q, lands, p).1.executed;
      after == if at == STOP + 2 || !Mapped(p.memory, at, 4) then p.executed else p.executed + [at]
  {
    var at := isa.pc(p.cpu);
    if Mapped(p.memory, at, 4) {
      var window := Read(p.memory, at, 4);
      var (cpu, stores) := isa.execute(p.cpu, window, LoadAll(q, p.memory, isa.loads(p.cpu, window)).1);
      StoresKeepHistory(q, lands, p.(executed := p.executed + [at], trace := p.trace + [at], cpu := cpu), stores);
    }
  }

  /** Every instruction was fetched from flash. */
  ghost predicate FetchedFromFlash(q: Request, executed: seq<int>) {
    forall i :: 0 <= i < |executed| ==> executed[i] + 4 <= q.flashSize
  }

  lemma {:induction false} RunsOnlyAddHistory<C>(isa: Isa<C>, q: Request, lands: bool, p: Progress<C>, budget: nat)
    ensures p.executed <= Emulate(isa, q, lands, p, budget).1.executed
    decreases budget
  {
    if budget > 0 {
      StepRecords(isa, q, lands, p);
      RunsOnlyAddHistory(isa, q, lands, StepOnce(isa, q, lands, p).1, budget - 1);
    }
  }

  lemma {:induction false} EmulationAlike<C(!new)>(isa: Isa<C>, q: Request, lands: bool, p: Progress<C>,
                                            p': Progress<C>, budget: nat)
    requires q.strictReads && Alike(q, p, p')
    requires FetchedFromFlash(q, Emulate(isa, q, lands, p, budget).1.executed)
    ensures Emulate(isa, q, lands, p, budget).0 == Emulate(isa, q, lands, p', budget).0
    ensures Alike(q, Emulate(isa, q, lands, p, budget).1, Emulate(isa, q, lands, p', budget).1)
    decreases budget
  {
    if budget > 0 {
      var (end, next) := StepOnce(isa, q, lands, p);
      if end.None? {
        RunsOnlyAddHistory(isa, q, lands, next, budget - 1);
        assert forall i :: 0 <= i < |next.executed| ==>
          next.executed[i] == Emulate(isa, q, lands, next, budget - 1).1.executed[i];
      }
      StepAlike(isa, q, lands, p, p');
      if end.None? {
        EmulationAlike(isa, q, lands, next, StepOnce(isa, q, lands, p').1, budget - 1);
      }
    }
  }

  /** Every observed range lies in declared memory. */
  predicate ObservesDeclared(q: Request) {
    forall i :: 0 <= i < |q.observe| ==> ReadAllowed(q, q.observe[i].0, q.observe[i].1)
  }

  lemma {:induction false} ObservationsAgree(q: Request, m: Memory, m': Memory, ranges: seq<(nat, nat)>)
    requires Agree(q, m, m')
    ensures ObserveAll(m, ranges).Some? <==> ObserveAll(m', ranges).Some?
    ensures (forall i :: 0 <= i < |ranges| ==> ReadAllowed(q, ranges[i].0, ranges[i].1)) ==>
      ObserveAll(m, ranges) == ObserveAll(m', ranges)
    decreases ranges
  {
    if ranges != [] {
      MappedAgrees(q, m, m', ranges[0].0, ranges[0].1);
      ObservationsAgree(q, m, m', ranges[1..]);
      if Mapped(m, ranges[0].0, ranges[0].1) && ReadAllowed(q, ranges[0].0, ranges[0].1) {
        AllowedReadsAgree(q, m, m', ranges[0].0, ranges[0].1);
      }
    }
  }

  /** The same bytes are mapped, and standing memory holds the same values. */
  ghost predicate AgreeStanding(q: Request, m: Memory, m': Memory) {
    m.Keys == m'.Keys && forall a :: a in m && Standing(q, a) ==> m[a] == m'[a]
  }

  lemma WholeAlike<C(!new)>(isa: Isa<C>, q: Request, lands: bool, m: Memory, m': Memory, context: C)
    requires q.strictReads && AgreeStanding(q, m, m')
    requires FetchedFromFlash(q, Whole(isa, q, lands, m, context).1.executed)
    ensures var (end, p), (end', p') := Whole(isa, q, lands, m, context), Whole(isa, q, lands, m', context);
      end == end' && SameProcessor(p, p') && (Alike(q, p, p') || !end.Reached?)
  {
    var p, p' := Begin(isa, q, m, context), Begin(isa, q, m', context);
    assert AgreeSeeded(q, 0, m, m');
    SeedsAlike(q, p, p', 0);
    assert Seeds(q)[0..] == Seeds(q);
    if SeedAll(p, Seeds(q)).0 {
      EmulationAlike(isa, q, lands, SeedAll(p, Seeds(q)).1, SeedAll(p', Seeds(q)).1, BUDGET);
    }
  }

  lemma ConclusionsAlike<C(!new)>(isa: Isa<C>, q: Request, end: End, p: Progress<C>, p': Progress<C>)
    requires SameProcessor(p, p') && (Alike(q, p, p') || !end.Reached?)
    ensures Conclude(isa, q, end, p).(observed := []) == Conclude(isa, q, end, p').(observed := [])
    ensures ObservesDeclared(q) ==> Conclude(isa, q, end, p) == Conclude(isa, q, end, p')
  {
    if end.Reached? {
      ObservationsAgree(q, p.memory, p'.memory, q.observe);
    }
  }

  /**
   Non-interference. Two machines that agree on the flash and the stack window give
   runs with the same end, processor, writes, trace and coverage, whether they
   complete or not; observed bytes agree too when only declared ranges are observed.
   */
  lemma StrictRunIgnoresUndeclaredMemory<C(!new)>(isa: Isa<C>, q: Request, lands: bool, m: Memory, m': Memory,
                                           context: C)
    requires q.strictReads && AgreeStanding(q, m, m')
    requires FetchedFromFlash(q, Whole(isa, q, lands, m, context).1.executed)
    ensures FreshRun(isa, q, lands, m, context).(observed := []) ==
      FreshRun(isa, q, lands, m', context).(observed := [])
    ensures ObservesDeclared(q) ==> FreshRun(isa, q, lands, m, context) == FreshRun(isa, q, lands, m', context)
  {
    WholeAlike(isa, q, lands, m, m', context);
    var (end, p) := Whole(isa, q, lands, m, context);
    var (end', p') := Whole(isa, q, lands, m', context);
    ConclusionsAlike(isa, q, end, p, p');
  }
}
