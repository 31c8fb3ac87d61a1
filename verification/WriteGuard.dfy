/** The write guard over a whole run: bytes that a run was not allowed to change keep their values. */
module WriteGuard {
  import opened Images
  import opened Replay

  /** Bytes a run may change: the flags, its inputs, its stack window and the ranges it allows. */
  predicate Writable(q: Request, a: nat) {
    || q.flags <= a < q.flags + 7
    || (exists i :: 0 <= i < |q.settings| && a == q.flags + q.settings[i].0)
    || (exists i :: 0 <= i < |q.memory| && Covers(q.memory[i], a))
    || STACK - 0x100 <= a < STACK + q.stackDelta
    || exists i :: 0 <= i < |q.allowWrites| && q.allowWrites[i].0 <= a < q.allowWrites[i].1
  }

  lemma SeedsAreWritable(q: Request, n: nat, a: nat)
    requires n < |Seeds(q)| && Covers(Seeds(q)[n], a)
    ensures Writable(q, a)
  {
    FlagSeed(q);
    if 0 < n <= |q.settings| {
      SettingSeed(q, n - 1);
      assert a == q.flags + q.settings[n - 1].0;
    } else if n > |q.settings| {
      MemorySeed(q, n - 1 - |q.settings|);
      assert Covers(q.memory[n - 1 - |q.settings|], a);
    }
  }

  ghost predicate Confined(q: Request, m: Memory, m': Memory) {
    m.Keys == m'.Keys && forall a :: a in m && !Writable(q, a) ==> m'[a] == m[a]
  }

  lemma WriteIsConfined(q: Request, m: Memory, m': Memory, s: Store)
    requires Confined(q, m, m')
    requires forall a :: Covers(s, a) ==> Writable(q, a)
    ensures Confined(q, m, Write(m', s.0, s.1))
  {
    forall a | a in m && !Writable(q, a) ensures Write(m', s.0, s.1)[a] == m[a] {
      assert !Covers(s, a);
    }
  }

  lemma AllowedStoresAreWritable(q: Request, s: Store)
    requires WriteAllowed(q, s.0, |s.1|)
    ensures forall a :: Covers(s, a) ==> Writable(q, a)
  {
  }

  lemma {:induction false} SeedsAreConfined<C>(q: Request, p: Progress<C>, n: nat, m: Memory)
    requires n <= |Seeds(q)| && Confined(q, m, p.memory)
    ensures Confined(q, m, SeedAll(p, Seeds(q)[n..]).1.memory)
    decreases |Seeds(q)| - n
  {
    var seeds := Seeds(q)[n..];
    if seeds != [] && Mapped(p.memory, seeds[0].0, |seeds[0].1|) {
      var (at, value) := seeds[0];
      assert seeds[0] == Seeds(q)[n] && seeds[1..] == Seeds(q)[n + 1..];
      forall a | Covers(seeds[0], a) ensures Writable(q, a) {
        SeedsAreWritable(q, n, a);
      }
      WriteIsConfined(q, m, p.memory, seeds[0]);
      SeedsAreConfined(q, p.(log := p.log + [(at, Read(p.memory, at, |value|))], memory := Write(p.memory, at, value)),
        n + 1, m);
    }
  }

  lemma {:induction false} StoresAreConfined<C>(q: Request, p: Progress<C>, stores: seq<Store>, lands: bool, m: Memory)
    requires Confined(q, m, p.memory)
    ensures (lands && StoreAll(q, lands, p, stores).0 == Some(UnintendedWrite))
         || Confined(q, m, StoreAll(q, lands, p, stores).1.memory)
    decreases stores
  {
    if stores != [] {
      var s := stores[0];
      if Mapped(p.memory, s.0, |s.1|) && WriteAllowed(q, s.0, |s.1|) {
        AllowedStoresAreWritable(q, s);
        WriteIsConfined(q, m, p.memory, s);
        StoresAreConfined(q, StoreOne(q, lands, p, s).1, stores[1..], lands, m);
      }
    }
  }

  lemma StepIsConfined<C>(isa: Isa<C>, q: Request, p: Progress<C>, lands: bool, m: Memory)
    requires Confined(q, m, p.memory)
    ensures (lands && StepOnce(isa, q, lands, p).0 == Some(UnintendedWrite))
         || Confined(q, m, StepOnce(isa, q, lands, p).1.memory)
  {
    var at := isa.pc(p.cpu);
    if Mapped(p.memory, at, 4) {
      var window := Read(p.memory, at, 4);
      var (cpu, stores) := isa.execute(p.cpu, window, LoadAll(q, p.memory, isa.loads(p.cpu, window)).1);
      StoresAreConfined(q, p.(executed := p.executed + [at], trace := p.trace + [at], cpu := cpu), stores, lands, m);
    }
  }

  lemma {:induction false} EmulationIsConfined<C>(isa: Isa<C>, q: Request, p: Progress<C>, budget: nat, lands: bool,
                                                  m: Memory)
    requires Confined(q, m, p.memory)
    ensures (lands && Emulate(isa, q, lands, p, budget).0 == UnintendedWrite)
         || Confined(q, m, Emulate(isa, q, lands, p, budget).1.memory)
    decreases budget
  {
    if budget > 0 {
      StepIsConfined(isa, q, p, lands, m);
      if StepOnce(isa, q, lands, p).0.None? {
        EmulationIsConfined(isa, q, StepOnce(isa, q, lands, p).1, budget - 1, lands, m);
      }
    }
  }

  /**
   A run changes writable bytes only, however it ends. The one exception is a run
   that the guard aborted at a store which had already landed.
   */
  lemma RunChangesOnlyWritableMemory<C>(isa: Isa<C>, q: Request, lands: bool, memory: Memory, context: C)
    ensures (lands && Whole(isa, q, lands, memory, context).0 == UnintendedWrite)
         || Confined(q, memory, Whole(isa, q, lands, memory, context).1.memory)
  {
    var start := Begin(isa, q, memory, context);
    assert Seeds(q)[0..] == Seeds(q);
    SeedsAreConfined(q, start, 0, memory);
    EmulationIsConfined(isa, q, SeedAll(start, Seeds(q)).1, BUDGET, lands, memory);
  }

  // ---------------------------------------------------------------- the report of a refused store

  predicate Permitted(q: Request, s: Store) {
    WriteAllowed(q, s.0, |s.1|)
  }

  predicate AllPermitted(q: Request, writes: seq<Store>) {
    forall k :: 0 <= k < |writes| ==> Permitted(q, writes[k])
  }

  /** The reported stores are all permitted, but for the last one of a run that a store has ended. */
  predicate Reports(q: Request, refused: bool, writes: seq<Store>) {
    if refused then writes != [] && AllPermitted(q, writes[..|writes| - 1]) && !Permitted(q, writes[|writes| - 1])
    else AllPermitted(q, writes)
  }

  lemma {:induction false} StoresReport<C>(q: Request, lands: bool, p: Progress<C>, stores: seq<Store>)
    requires AllPermitted(q, p.writes)
    ensures var (end, p') := StoreAll(q, lands, p, stores); Reports(q, end == Some(UnintendedWrite), p'.writes)
    decreases stores
  {
    if stores != [] && Mapped(p.memory, stores[0].0, |stores[0].1|) {
      var next := StoreOne(q, lands, p, stores[0]).1;
      assert next.writes[..|next.writes| - 1] == p.writes;
      if Permitted(q, stores[0]) {
        StoresReport(q, lands, next, stores[1..]);
      }
    }
  }

  lemma {:induction false} LoadsRefuseNoStore(q: Request, m: Memory, loads: seq<(nat, nat)>)
    ensures LoadAll(q, m, loads).0 != Some(UnintendedWrite)
    decreases loads
  {
    if loads != [] {
      LoadsRefuseNoStore(q, m, loads[1..]);
    }
  }

  lemma StepReports<C>(isa: Isa<C>, q: Request, lands: bool, p: Progress<C>)
    requires AllPermitted(q, p.writes)
    ensures var (end, p') := StepOnce(isa, q, lands, p); Reports(q, end == Some(UnintendedWrite), p'.writes)
  {
    var at := isa.pc(p.cpu);
    if Mapped(p.memory, at, 4) {
      var window := Read(p.memory, at, 4);
      LoadsRefuseNoStore(q, p.memory, isa.loads(p.cpu, window));
      var (cpu, stores) := isa.execute(p.cpu, window, LoadAll(q, p.memory, isa.loads(p.cpu, window)).1);
      StoresReport(q, lands, p.(executed := p.executed + [at], trace := p.trace + [at], cpu := cpu), stores);
    }
  }

  lemma {:induction false} EmulationReports<C>(isa: Isa<C>, q: Request, lands: bool, p: Progress<C>, budget: nat)
    requires AllPermitted(q, p.writes)
    ensures var (end, p') := Emulate(isa, q, lands, p, budget); Reports(q, end == UnintendedWrite, p'.writes)
    decreases budget
  {
    if budget > 0 {
      StepReports(isa, q, lands, p);
      var (end, next) := StepOnce(isa, q, lands, p);
      if end.None? {
        EmulationReports(isa, q, lands, next, budget - 1);
      }
    }
  }

  lemma {:induction false} SeedsWriteNothing<C>(p: Progress<C>, seeds: seq<Store>)
    ensures SeedAll(p, seeds).1.writes == p.writes
    decreases seeds
  {
    if seeds != [] && Mapped(p.memory, seeds[0].0, |seeds[0].1|) {
      SeedsWriteNothing(SeedOne(p, seeds[0]), seeds[1..]);
    }
  }

  /** A run that ends with a refused store reports it last, behind permitted ones; any other only permitted ones. */
  lemma RefusedStoreIsLast<C>(isa: Isa<C>, q: Request, lands: bool, memory: Memory, context: C)
    ensures var o := FreshRun(isa, q, lands, memory, context); Reports(q, o.end == UnintendedWrite, o.writes)
  {
    var start := Begin(isa, q, memory, context);
    SeedsWriteNothing(start, Seeds(q));
    EmulationReports(isa, q, lands, SeedAll(start, Seeds(q)).1, BUDGET);
  }
}
