/**
 The replay machine: one cached processor whose memory is rolled back from an
 undo log before every run, with guarded writes and optionally guarded reads.
 */
module Replay {
  import opened Images
  import opened Coverage

  const STOP := 0x0300_f000
  const STACK := 0x0300_8000
  const BUDGET := 2000

  /** The mapped bytes. */
  type Memory = map<nat, byte>
  /** A place and the bytes written there. */
  type Store = (nat, seq<byte>)

  predicate Mapped(m: Memory, at: nat, size: nat) {
    forall a :: at <= a < at + size ==> a in m
  }

  function Read(m: Memory, at: nat, size: nat): (r: seq<byte>)
    requires Mapped(m, at, size)
    ensures |r| == size
  {
    seq(size, i requires 0 <= i < size => m[at + i])
  }

  function Write(m: Memory, at: nat, value: seq<byte>): (r: Memory)
    ensures r.Keys == m.Keys
  {
    map a | a in m :: if at <= a < at + |value| then value[a - at] else m[a]
  }

  /** Undoes the log, latest entry first. */
  function Rollback(m: Memory, log: seq<Store>): (r: Memory)
    ensures r.Keys == m.Keys
  {
    if log == [] then m
    else
      var (at, previous) := log[|log| - 1];
      Rollback(Write(m, at, previous), log[..|log| - 1])
  }

  lemma WriteBackRestores(m: Memory, at: nat, value: seq<byte>)
    requires Mapped(m, at, |value|)
    ensures Write(Write(m, at, value), at, Read(m, at, |value|)) == m
    ensures Write(m, at, Read(m, at, |value|)) == m
  {
  }

  /** Logging the old bytes keeps the log able to restore, whether or not the new bytes land. */
  lemma LoggedWriteRollsBack(m: Memory, log: seq<Store>, at: nat, value: seq<byte>)
    requires Mapped(m, at, |value|)
    ensures var log' := log + [(at, Read(m, at, |value|))];
      Rollback(Write(m, at, value), log') == Rollback(m, log) == Rollback(m, log')
  {
    WriteBackRestores(m, at, value);
    var log' := log + [(at, Read(m, at, |value|))];
    assert log'[..|log'| - 1] == log;
  }

  // ---------------------------------------------------------------- processor

  /**
   A deterministic processor. `loads` names the memory an instruction reads, which
   depends on the processor and the instruction bytes only; `execute` turns the
   values read into the next processor and the stores, in order.
   */
  datatype Isa<!C> = Isa(
    pc: C -> nat,
    cpsr: C -> word,
    legal: seq<byte> -> bool,
    loads: (C, seq<byte>) -> seq<(nat, nat)>,
    execute: (C, seq<byte>, seq<seq<byte>>) -> (C, seq<Store>),
    start: (C, nat, seq<word>, word) -> C)

  datatype Request = Request(
    site: nat, stops: set<nat>, boundary: nat -> bool,
    flags: nat, settings: seq<(nat, byte)>, registers: map<nat, word>, memory: seq<Store>,
    allowWrites: seq<(nat, nat)>, stackDelta: int, observe: seq<(nat, nat)>,
    nzcv: word, strictReads: bool, stopThumb: bool, flashSize: nat)

  /** Why a run ends. `Unmapped` is the emulator's own error. */
  datatype End = Reached(target: nat) | Exhausted | Illegal | Unmapped | UnintendedWrite | UnprovidedRead
               | ControlChanged

  /**
   A run in progress: the processor, its memory and undo log, and what the hooks have
   seen. `executed` is what the recording hook saw, `trace` what the stop hook saw.
   */
  datatype Progress<C> = Progress(cpu: C, memory: Memory, log: seq<Store>, writes: seq<Store>, trace: seq<int>,
                                  executed: seq<int>)

  /** What the caller gets back, also from a run that fails. */
  datatype Outcome<C> = Outcome(end: End, cpu: C, before: seq<word>, writes: seq<Store>, trace: seq<int>,
                                instructions: set<int>, edges: set<Edge>, observed: seq<seq<byte>>)

  predicate Within(at: nat, size: nat, low: int, high: int) {
    low <= at && at + size <= high
  }

  predicate WriteAllowed(q: Request, at: nat, size: nat) {
    || Within(at, size, STACK - 0x100, STACK + q.stackDelta)
    || exists i :: 0 <= i < |q.allowWrites| && Within(at, size, q.allowWrites[i].0, q.allowWrites[i].1)
  }

  predicate ReadAllowed(q: Request, at: nat, size: nat) {
    || Within(at, size, 0, q.flashSize)
    || Within(at, size, STACK - 0x100, STACK)
    || Within(at, size, q.flags, q.flags + 7)
    || exists i :: 0 <= i < |q.memory| && Within(at, size, q.memory[i].0, q.memory[i].0 + |q.memory[i].1|)
  }

  /** The inputs written before a run: seven flag bytes, the settings among them, then the declared memory. */
  function Seeds(q: Request): seq<Store> {
    [(q.flags, [255, 255, 255, 255, 255, 255, 255])]
    + seq(|q.settings|, i requires 0 <= i < |q.settings| => (q.flags + q.settings[i].0, [q.settings[i].1]))
    + q.memory
  }

  function InitialRegisters(overrides: map<nat, word>): seq<word> {
    seq(13, i requires 0 <= i < 13 => if i in overrides then overrides[i] else Wrap(0x7654_0000 + i * 0x101))
  }

  /** The loads of one instruction, in order: the values, or the end they cause. */
  function LoadAll(q: Request, m: Memory, loads: seq<(nat, nat)>): (r: (Option<End>, seq<seq<byte>>)) {
    if loads == [] then (None, [])
    else
      var (at, size) := loads[0];
      if !Mapped(m, at, size) then (Some(Unmapped), [])
      else if q.strictReads && !ReadAllowed(q, at, size) then (Some(UnprovidedRead), [])
      else
        var (end, rest) := LoadAll(q, m, loads[1..]);
        (end, [Read(m, at, size)] + rest)
  }

  /** The loads from the `n`th on begin with the `n`th. */
  lemma LoadsFrom(q: Request, m: Memory, loads: seq<(nat, nat)>, n: nat)
    requires n < |loads| && Mapped(m, loads[n].0, loads[n].1)
    requires q.strictReads ==> ReadAllowed(q, loads[n].0, loads[n].1)
    ensures LoadAll(q, m, loads[n..]).0 == LoadAll(q, m, loads[n + 1..]).0
    ensures LoadAll(q, m, loads[n..]).1 == [Read(m, loads[n].0, loads[n].1)] + LoadAll(q, m, loads[n + 1..]).1
  {
    assert loads[n..][1..] == loads[n + 1..];
  }

  /** One logged store; whether a refused store still lands is left open by `lands`. */
  function StoreOne<C>(q: Request, lands: bool, p: Progress<C>, s: Store): (Option<End>, Progress<C>) {
    if !Mapped(p.memory, s.0, |s.1|) then (Some(Unmapped), p)
    else
      var logged := p.(log := p.log + [(s.0, Read(p.memory, s.0, |s.1|))], writes := p.writes + [s]);
      var stored := logged.(memory := Write(p.memory, s.0, s.1));
      if WriteAllowed(q, s.0, |s.1|) then (None, stored)
      else (Some(UnintendedWrite), if lands then stored else logged)
  }

  function StoreAll<C>(q: Request, lands: bool, p: Progress<C>, stores: seq<Store>): (Option<End>, Progress<C>)
    decreases stores
  {
    if stores == [] then (None, p)
    else
      var (end, p') := StoreOne(q, lands, p, stores[0]);
      if end.Some? then (end, p') else StoreAll(q, lands, p', stores[1..])
  }

  /** One instruction: the hooks, the loads, the effect and the stores. None means the run goes on. */
  function StepOnce<C>(isa: Isa<C>, q: Request, lands: bool, p: Progress<C>): (Option<End>, Progress<C>) {
    var at := isa.pc(p.cpu);
    if at == STOP + 2 then (Some(Exhausted), p)
    else if !Mapped(p.memory, at, 4) then (Some(Unmapped), p)
    else
      var window := Read(p.memory, at, 4);
      var recorded := p.(executed := p.executed + [at]);
      if !isa.legal(window) then (Some(Illegal), recorded)
      else
        var visited := recorded.(trace := p.trace + [at]);
        if at in q.stops || q.boundary(at) then (Some(Reached(at)), visited)
        else
          var (end, values) := LoadAll(q, p.memory, isa.loads(p.cpu, window));
          if end.Some? then (end, visited)
          else
            var (cpu, stores) := isa.execute(p.cpu, window, values);
            StoreAll(q, lands, visited.(cpu := cpu), stores)
  }

  function Emulate<C>(isa: Isa<C>, q: Request, lands: bool, p: Progress<C>, budget: nat): (End, Progress<C>)
    decreases budget
  {
    if budget == 0 then (Exhausted, p)
    else
      var (end, p') := StepOnce(isa, q, lands, p);
      if end.Some? then (end.value, p') else Emulate(isa, q, lands, p', budget - 1)
  }

  /** Seeding before the run, each input logged like a store. False when one is not mapped. */
  function SeedAll<C>(p: Progress<C>, seeds: seq<Store>): (bool, Progress<C>)
    decreases seeds
  {
    if seeds == [] then (true, p)
    else
      var (at, value) := seeds[0];
      if !Mapped(p.memory, at, |value|) then (false, p)
      else
        SeedAll(p.(log := p.log + [(at, Read(p.memory, at, |value|))], memory := Write(p.memory, at, value)),
          seeds[1..])
  }

  // ---------------------------------------------------------------- what memory holds after seeding

  predicate Covers(s: Store, a: nat) {
    s.0 <= a < s.0 + |s.1|
  }

  /** From the `n`th entry on none covers the byte. */
  predicate NoneCovers(entries: seq<Store>, n: nat, a: nat) {
    forall j :: n <= j < |entries| ==> !Covers(entries[j], a)
  }

  predicate NoneSets(q: Request, n: nat, a: nat) {
    forall j :: n <= j < |q.settings| ==> q.flags + q.settings[j].0 != a
  }

  /**
   From `m`, the inputs of a request make `m'`: a byte of the declared memory holds what its last entry gives it;
   a setting's place, unless declared memory covers it, the last setting made there; the other flag bytes
   hold 255; everything else is as before.
   */
  ghost predicate HoldsInputs(q: Request, m: Memory, m': Memory) {
    m'.Keys == m.Keys && HoldsMemory(q, m') && HoldsSettings(q, m') && HoldsOthers(q, m, m')
  }

  ghost predicate HoldsMemory(q: Request, m': Memory) {
    forall a, k :: a in m' && IsLastCover(q.memory, k, a) ==> m'[a] == q.memory[k].1[a - q.memory[k].0]
  }

  /** The last entry that covers the byte is the `k`th. */
  predicate IsLastCover(entries: seq<Store>, k: int, a: nat) {
    0 <= k < |entries| && Covers(entries[k], a) && NoneCovers(entries, k + 1, a)
  }

  ghost predicate HoldsSettings(q: Request, m': Memory) {
    forall a, k :: a in m' && NoneCovers(q.memory, 0, a) && 0 <= k < |q.settings| &&
                   a == q.flags + q.settings[k].0 && NoneSets(q, k + 1, a) ==>
      m'[a] == q.settings[k].1
  }

  ghost predicate HoldsOthers(q: Request, m: Memory, m': Memory) {
    forall a :: a in m && a in m' && NoneCovers(q.memory, 0, a) && NoneSets(q, 0, a) ==>
      m'[a] == if q.flags <= a < q.flags + 7 then 255 else m[a]
  }

  /** Every place that is seeded is mapped. */
  predicate InputsMapped(q: Request, m: Memory) {
    && Mapped(m, q.flags, 7)
    && (forall k :: 0 <= k < |q.settings| ==> q.flags + q.settings[k].0 in m)
    && forall k :: 0 <= k < |q.memory| ==> Mapped(m, q.memory[k].0, |q.memory[k].1|)
  }

  lemma {:induction false} SeedsAreMapped<C>(p: Progress<C>, seeds: seq<Store>)
    ensures SeedAll(p, seeds).0 <==> AllMapped(p.memory, seeds)
    ensures SeedAll(p, seeds).1.memory.Keys == p.memory.Keys
    decreases seeds
  {
    if seeds != [] {
      if Mapped(p.memory, seeds[0].0, |seeds[0].1|) {
        var next := SeedOne(p, seeds[0]);
        SeedsAreMapped(next, seeds[1..]);
        RestIsMapped(p.memory, next.memory, seeds);
      } else {
        assert !IsMapped(p.memory, seeds[0]);
      }
    }
  }

  predicate IsMapped(m: Memory, s: Store) {
    Mapped(m, s.0, |s.1|)
  }

  predicate AllMapped(m: Memory, seeds: seq<Store>) {
    forall k :: 0 <= k < |seeds| ==> IsMapped(m, seeds[k])
  }

  lemma RestIsMapped(m: Memory, m': Memory, seeds: seq<Store>)
    requires seeds != [] && IsMapped(m, seeds[0]) && m.Keys == m'.Keys
    ensures AllMapped(m, seeds) <==> AllMapped(m', seeds[1..])
  {
    forall k | 0 <= k < |seeds| ensures IsMapped(m', seeds[k]) <==> IsMapped(m, seeds[k]) {
      SameKeysSameMapped(m, m', seeds[k].0, |seeds[k].1|);
    }
    if AllMapped(m', seeds[1..]) {
      forall k | 0 <= k < |seeds| ensures IsMapped(m, seeds[k]) {
        assert k > 0 ==> seeds[1..][k - 1] == seeds[k];
      }
    }
  }

  lemma SameKeysSameMapped(m: Memory, m': Memory, at: nat, size: nat)
    requires m.Keys == m'.Keys
    ensures Mapped(m, at, size) <==> Mapped(m', at, size)
  {
    assert forall a :: a in m <==> a in m';
  }

  function SeedOne<C>(p: Progress<C>, s: Store): Progress<C>
    requires Mapped(p.memory, s.0, |s.1|)
  {
    p.(log := p.log + [(s.0, Read(p.memory, s.0, |s.1|))], memory := Write(p.memory, s.0, s.1))
  }

  /** After seeding a byte holds what the last seed that covers it says, or what it held before. */
  lemma {:induction false} LastSeedStays<C>(p: Progress<C>, seeds: seq<Store>, a: nat, n: nat)
    requires SeedAll(p, seeds).0 && a in p.memory && n <= |seeds| && NoneCovers(seeds, n, a)
    requires n > 0 ==> Covers(seeds[n - 1], a)
    ensures a in SeedAll(p, seeds).1.memory
    ensures SeedAll(p, seeds).1.memory[a] == if n == 0 then p.memory[a] else seeds[n - 1].1[a - seeds[n - 1].0]
    decreases seeds
  {
    if seeds != [] {
      var next := SeedOne(p, seeds[0]);
      assert n > 1 ==> seeds[1..][n - 2] == seeds[n - 1];
      assert forall j :: n <= j < |seeds| && j > 0 ==> seeds[1..][j - 1] == seeds[j];
      LastSeedStays(next, seeds[1..], a, if n == 0 then 0 else n - 1);
    }
  }

  lemma FlagSeed(q: Request)
    ensures |Seeds(q)| == 1 + |q.settings| + |q.memory| && Seeds(q)[0] == (q.flags, [255, 255, 255, 255, 255, 255, 255])
  {
  }

  lemma SettingSeed(q: Request, k: nat)
    requires k < |q.settings|
    ensures 1 + k < |Seeds(q)| && Seeds(q)[1 + k] == (q.flags + q.settings[k].0, [q.settings[k].1])
  {
  }

  lemma MemorySeed(q: Request, k: nat)
    requires k < |q.memory|
    ensures 1 + |q.settings| + k < |Seeds(q)| && Seeds(q)[1 + |q.settings| + k] == q.memory[k]
  {
  }

  lemma NoMemoryCovers(q: Request, a: nat, k: nat)
    requires k <= |q.memory| && NoneCovers(q.memory, k, a)
    ensures 1 + |q.settings| + k <= |Seeds(q)| && NoneCovers(Seeds(q), 1 + |q.settings| + k, a)
  {
    FlagSeed(q);
    forall j | 1 + |q.settings| + k <= j < |Seeds(q)| ensures !Covers(Seeds(q)[j], a) {
      MemorySeed(q, j - 1 - |q.settings|);
    }
  }

  lemma NoSettingCovers(q: Request, a: nat, k: nat)
    requires k <= |q.settings| && NoneCovers(q.memory, 0, a) && NoneSets(q, k, a)
    ensures 1 + k <= |Seeds(q)| && NoneCovers(Seeds(q), 1 + k, a)
  {
    FlagSeed(q);
    NoMemoryCovers(q, a, 0);
    forall j | 1 + k <= j < |Seeds(q)| ensures !Covers(Seeds(q)[j], a) {
      if j < 1 + |q.settings| {
        SettingSeed(q, j - 1);
      }
    }
  }

  lemma MemoryIsHeld<C>(q: Request, p: Progress<C>, a: nat, k: nat)
    requires SeedAll(p, Seeds(q)).0 && a in p.memory && IsLastCover(q.memory, k, a)
    ensures a in SeedAll(p, Seeds(q)).1.memory
    ensures SeedAll(p, Seeds(q)).1.memory[a] == q.memory[k].1[a - q.memory[k].0]
  {
    MemorySeed(q, k);
    NoMemoryCovers(q, a, k + 1);
    LastSeedStays(p, Seeds(q), a, 2 + |q.settings| + k);
  }

  lemma SettingIsHeld<C>(q: Request, p: Progress<C>, a: nat, k: nat)
    requires SeedAll(p, Seeds(q)).0 && a in p.memory && k < |q.settings|
    requires NoneCovers(q.memory, 0, a) && a == q.flags + q.settings[k].0 && NoneSets(q, k + 1, a)
    ensures a in SeedAll(p, Seeds(q)).1.memory && SeedAll(p, Seeds(q)).1.memory[a] == q.settings[k].1
  {
    SettingSeed(q, k);
    NoSettingCovers(q, a, k + 1);
    LastSeedStays(p, Seeds(q), a, 2 + k);
  }

  lemma OthersAreHeld<C>(q: Request, p: Progress<C>, a: nat)
    requires SeedAll(p, Seeds(q)).0 && a in p.memory && NoneCovers(q.memory, 0, a) && NoneSets(q, 0, a)
    ensures a in SeedAll(p, Seeds(q)).1.memory
    ensures SeedAll(p, Seeds(q)).1.memory[a] == if q.flags <= a < q.flags + 7 then 255 else p.memory[a]
  {
    FlagSeed(q);
    NoSettingCovers(q, a, 0);
    if q.flags <= a < q.flags + 7 {
      LastSeedStays(p, Seeds(q), a, 1);
    } else {
      assert !Covers(Seeds(q)[0], a);
      LastSeedStays(p, Seeds(q), a, 0);
    }
  }

  lemma SeedPlaces(q: Request, m: Memory)
    ensures AllMapped(m, Seeds(q)) <==> InputsMapped(q, m)
  {
    FlagSeed(q);
    if AllMapped(m, Seeds(q)) {
      assert IsMapped(m, Seeds(q)[0]);
      forall k | 0 <= k < |q.settings| ensures q.flags + q.settings[k].0 in m {
        SettingSeed(q, k);
        assert IsMapped(m, Seeds(q)[1 + k]);
      }
      forall k | 0 <= k < |q.memory| ensures Mapped(m, q.memory[k].0, |q.memory[k].1|) {
        MemorySeed(q, k);
        assert IsMapped(m, Seeds(q)[1 + |q.settings| + k]);
      }
    }
    if InputsMapped(q, m) {
      forall k | 0 <= k < |Seeds(q)| ensures IsMapped(m, Seeds(q)[k]) {
        if 0 < k <= |q.settings| {
          SettingSeed(q, k - 1);
        } else if k > |q.settings| {
          MemorySeed(q, k - 1 - |q.settings|);
        }
      }
    }
  }

  /** Seeding the inputs of a request succeeds when their places are mapped, and then memory holds them. */
  lemma SeedingHoldsInputs<C>(q: Request, p: Progress<C>)
    ensures SeedAll(p, Seeds(q)).0 <==> InputsMapped(q, p.memory)
    ensures SeedAll(p, Seeds(q)).0 ==> HoldsInputs(q, p.memory, SeedAll(p, Seeds(q)).1.memory)
  {
    SeedsAreMapped(p, Seeds(q));
    SeedPlaces(q, p.memory);
    if SeedAll(p, Seeds(q)).0 {
      var m := SeedAll(p, Seeds(q)).1.memory;
      SeedingHoldsMemory(q, p, m);
      SeedingHoldsSettings(q, p, m);
      SeedingHoldsOthers(q, p, m);
    }
  }

  lemma SeedingHoldsMemory<C>(q: Request, p: Progress<C>, m: Memory)
    requires SeedAll(p, Seeds(q)).0 && m == SeedAll(p, Seeds(q)).1.memory && m.Keys == p.memory.Keys
    ensures HoldsMemory(q, m)
  {
    forall a, k | a in m && IsLastCover(q.memory, k, a) ensures m[a] == q.memory[k].1[a - q.memory[k].0] {
      assert a in p.memory;
      MemoryIsHeld(q, p, a, k);
    }
  }

  lemma SeedingHoldsSettings<C>(q: Request, p: Progress<C>, m: Memory)
    requires SeedAll(p, Seeds(q)).0 && m == SeedAll(p, Seeds(q)).1.memory && m.Keys == p.memory.Keys
    ensures HoldsSettings(q, m)
  {
    forall a, k | a in m && NoneCovers(q.memory, 0, a) && 0 <= k < |q.settings| &&
                  a == q.flags + q.settings[k].0 && NoneSets(q, k + 1, a)
      ensures m[a] == q.settings[k].1
    {
      assert a in p.memory;
      SettingIsHeld(q, p, a, k);
    }
  }

  lemma SeedingHoldsOthers<C>(q: Request, p: Progress<C>, m: Memory)
    requires SeedAll(p, Seeds(q)).0 && m == SeedAll(p, Seeds(q)).1.memory && m.Keys == p.memory.Keys
    ensures HoldsOthers(q, p.memory, m)
  {
    forall a | a in p.memory && a in m && NoneCovers(q.memory, 0, a) && NoneSets(q, 0, a)
      ensures m[a] == if q.flags <= a < q.flags + 7 then 255 else p.memory[a]
    {
      OthersAreHeld(q, p, a);
    }
  }

  function Begin<C>(isa: Isa<C>, q: Request, memory: Memory, context: C): Progress<C> {
    Progress(isa.start(context, q.site, InitialRegisters(q.registers), q.nzcv), memory, [], [], [], [])
  }

  function ObserveAll(m: Memory, ranges: seq<(nat, nat)>): Option<seq<seq<byte>>> {
    if ranges == [] then Some([])
    else if !Mapped(m, ranges[0].0, ranges[0].1) || ObserveAll(m, ranges[1..]).None? then None
    else Some([Read(m, ranges[0].0, ranges[0].1)] + ObserveAll(m, ranges[1..]).value)
  }

  /** What the caller sees once emulation has ended. */
  function Conclude<C>(isa: Isa<C>, q: Request, end: End, p: Progress<C>): Outcome<C> {
    var result := Outcome(end, p.cpu, InitialRegisters(q.registers), p.writes, p.trace, Visited(p.executed),
      Pairs(p.executed), []);
    if !end.Reached? then result
    else if isa.cpsr(p.cpu) % 0x100_0000 != (if q.stopThumb then 0x30 else 0x10) then result.(end := ControlChanged)
    else if ObserveAll(p.memory, q.observe).None? then result.(end := Unmapped)
    else result.(observed := ObserveAll(p.memory, q.observe).value)
  }

  /** The progress at the end of a run that starts from `memory` and `context`, and how it ended. */
  function Whole<C>(isa: Isa<C>, q: Request, lands: bool, memory: Memory, context: C): (End, Progress<C>) {
    var (seeded, p) := SeedAll(Begin(isa, q, memory, context), Seeds(q));
    if seeded then Emulate(isa, q, lands, p, BUDGET) else (Unmapped, p)
  }

  /** A run on a machine that nothing ran on before. */
  function FreshRun<C>(isa: Isa<C>, q: Request, lands: bool, memory: Memory, context: C): Outcome<C> {
    var (end, p) := Whole(isa, q, lands, memory, context);
    Conclude(isa, q, end, p)
  }

  // ---------------------------------------------------------------- the log restores

  ghost predicate LogRestores<C>(p: Progress<C>, initial: Memory) {
    Rollback(p.memory, p.log) == initial
  }

  lemma {:induction false} SeedsKeepLog<C>(p: Progress<C>, seeds: seq<Store>, initial: Memory)
    requires LogRestores(p, initial)
    ensures LogRestores(SeedAll(p, seeds).1, initial)
    decreases seeds
  {
    if seeds != [] && Mapped(p.memory, seeds[0].0, |seeds[0].1|) {
      var (at, value) := seeds[0];
      LoggedWriteRollsBack(p.memory, p.log, at, value);
      SeedsKeepLog(p.(log := p.log + [(at, Read(p.memory, at, |value|))], memory := Write(p.memory, at, value)),
        seeds[1..], initial);
    }
  }

  lemma {:induction false} StoresKeepLog<C>(q: Request, lands: bool, p: Progress<C>, stores: seq<Store>,
                                            initial: Memory)
    requires LogRestores(p, initial)
    ensures LogRestores(StoreAll(q, lands, p, stores).1, initial)
    decreases stores
  {
    if stores != [] {
      if Mapped(p.memory, stores[0].0, |stores[0].1|) {
        LoggedWriteRollsBack(p.memory, p.log, stores[0].0, stores[0].1);
      }
      StoresKeepLog(q, lands, StoreOne(q, lands, p, stores[0]).1, stores[1..], initial);
    }
  }

  lemma StepKeepsLog<C>(isa: Isa<C>, q: Request, lands: bool, p: Progress<C>, initial: Memory)
    requires LogRestores(p, initial)
    ensures LogRestores(StepOnce(isa, q, lands, p).1, initial)
  {
    var at := isa.pc(p.cpu);
    if Mapped(p.memory, at, 4) {
      var window := Read(p.memory, at, 4);
      var visited := p.(executed := p.executed + [at], trace := p.trace + [at]);
      var (cpu, stores) := isa.execute(p.cpu, window, LoadAll(q, p.memory, isa.loads(p.cpu, window)).1);
      StoresKeepLog(q, lands, visited.(cpu := cpu), stores, initial);
    }
  }

  lemma {:induction false} EmulationKeepsLog<C>(isa: Isa<C>, q: Request, lands: bool, p: Progress<C>, budget: nat,
                                                initial: Memory)
    requires LogRestores(p, initial)
    ensures LogRestores(Emulate(isa, q, lands, p, budget).1, initial)
    decreases budget
  {
    if budget > 0 {
      StepKeepsLog(isa, q, lands, p, initial);
      EmulationKeepsLog(isa, q, lands, StepOnce(isa, q, lands, p).1, budget - 1, initial);
    }
  }

  /** Whatever a run did and however it ended, its log takes memory back to where it started. */
  lemma RunCanBeUndone<C>(isa: Isa<C>, q: Request, lands: bool, memory: Memory, context: C)
    ensures var p := Whole(isa, q, lands, memory, context).1;
      Rollback(p.memory, p.log) == memory
  {
    var start := Begin(isa, q, memory, context);
    assert LogRestores(start, memory);
    SeedsKeepLog(start, Seeds(q), memory);
    EmulationKeepsLog(isa, q, lands, SeedAll(start, Seeds(q)).1, BUDGET, memory);
  }

  /**
   The cached machine. `initialMemory` and `initialContext` are what it held when it was built, `memory`
   and `context` what the last run left; `context` is the processor with everything but its memory.
   */
  class CachedMachine<C> {
    const isa: Isa<C>
    const initialMemory: Memory
    const initialContext: C
    var memory: Memory
    var context: C
    var dirty: seq<Store>
    var instructions: set<int>
    var edges: set<Edge>
    var previous: Option<int>

    ghost predicate Valid()
      reads this
    {
      Rollback(memory, dirty) == initialMemory
    }

    constructor (isa: Isa<C>, memory: Memory, context: C)
      ensures Valid() && this.isa == isa && initialMemory == memory && initialContext == context
    {
      this.isa, initialMemory, initialContext := isa, memory, context;
      this.memory, this.context, dirty, instructions, edges, previous := memory, context, [], {}, {}, None;
    }

    /** Undo of everything since the machine was built. */
    method Restore()
      requires Valid()
      modifies this
      ensures Valid() && memory == initialMemory && context == initialContext && dirty == []
      ensures instructions == {} && edges == {} && previous == None
    {
      var n := |dirty|;
      assert dirty[..n] == dirty;
      while n > 0
        invariant 0 <= n <= |dirty| && dirty == old(dirty)
        invariant Rollback(memory, dirty[..n]) == initialMemory
      {
        n := n - 1;
        assert dirty[..n + 1][..n] == dirty[..n];
        memory := Write(memory, dirty[n].0, dirty[n].1);
      }
      dirty, context, instructions, edges, previous := [], initialContext, {}, {}, None;
    }

    /** This run's progress, as the specification sees it. */
    ghost function Now(cpu: C, writes: seq<Store>, trace: seq<int>, executed: seq<int>): Progress<C>
      reads this
    {
      Progress(cpu, memory, dirty, writes, trace, executed)
    }

    /** Seeds one input, remembering what it overwrites. */
    method Seed(at: nat, value: seq<byte>)
      requires Mapped(memory, at, |value|)
      modifies `memory, `dirty
      ensures dirty == old(dirty) + [(at, Read(old(memory), at, |value|))]
      ensures memory == Write(old(memory), at, value)
    {
      dirty := dirty + [(at, Read(memory, at, |value|))];
      memory := Write(memory, at, value);
    }

    method SeedInputs(q: Request, cpu: C) returns (seeded: bool)
      modifies `memory, `dirty
      ensures (seeded, Now(cpu, [], [], [])) == SeedAll(old(Now(cpu, [], [], [])), Seeds(q))
      ensures seeded <==> InputsMapped(q, old(memory))
      ensures seeded ==> HoldsInputs(q, old(memory), memory)
    {
      SeedingHoldsInputs(q, Now(cpu, [], [], []));
      var seeds := Seeds(q);
      var n := 0;
      while n < |seeds|
        invariant n <= |seeds|
        invariant SeedAll(old(Now(cpu, [], [], [])), seeds) == SeedAll(Now(cpu, [], [], []), seeds[n..])
      {
        if !Mapped(memory, seeds[n].0, |seeds[n].1|) {
          return false;
        }
        Seed(seeds[n].0, seeds[n].1);
        assert seeds[n..][1..] == seeds[n + 1..];
        n := n + 1;
      }
      seeded := true;
    }

    /** The recording hook: the edge from the previous instruction of this run, and the instruction. */
    method RecordInstruction(at: int, ghost executed: seq<int>)
      requires instructions == Visited(executed) && edges == Pairs(executed)
      requires previous == if executed == [] then None else Some(executed[|executed| - 1])
      modifies `instructions, `edges, `previous
      ensures instructions == Visited(executed + [at]) && edges == Pairs(executed + [at]) && previous == Some(at)
    {
      PairsOneMore(executed, at);
      VisitedOneMore(executed, at);
      if previous.Some? {
        edges := edges + {(previous.value, at)};
      }
      previous := Some(at);
      instructions := instructions + {at};
    }

    method LoadInputs(q: Request, loads: seq<(nat, nat)>) returns (end: Option<End>, values: seq<seq<byte>>)
      ensures end == LoadAll(q, memory, loads).0
      ensures end.None? ==> values == LoadAll(q, memory, loads).1
    {
      values := [];
      var n := 0;
      while n < |loads|
        invariant n <= |loads|
        invariant LoadAll(q, memory, loads).0 == LoadAll(q, memory, loads[n..]).0
        invariant LoadAll(q, memory, loads).1 == values + LoadAll(q, memory, loads[n..]).1
      {
        var (at, size) := loads[n];
        if !Mapped(memory, at, size) {
          return Some(Unmapped), values;
        }
        if q.strictReads && !ReadAllowed(q, at, size) {
          return Some(UnprovidedRead), values;
        }
        LoadsFrom(q, memory, loads, n);
        values := values + [Read(memory, at, size)];
        n := n + 1;
      }
      end := None;
    }

    /** The write hook for each store, then the store itself; the guard comes after the log entry. */
    method StoreOutputs(q: Request, lands: bool, cpu: C, stores: seq<Store>, written: seq<Store>,
                        ghost trace: seq<int>, ghost executed: seq<int>)
      returns (end: Option<End>, writes: seq<Store>)
      modifies `memory, `dirty
      ensures (end, Now(cpu, writes, trace, executed)) ==
        StoreAll(q, lands, old(Now(cpu, written, trace, executed)), stores)
    {
      writes := written;
      var n := 0;
      while n < |stores|
        invariant n <= |stores|
        invariant StoreAll(q, lands, old(Now(cpu, written, trace, executed)), stores)
               == StoreAll(q, lands, Now(cpu, writes, trace, executed), stores[n..])
      {
        var (at, value) := stores[n];
        if !Mapped(memory, at, |value|) {
          return Some(Unmapped), writes;
        }
        dirty := dirty + [(at, Read(memory, at, |value|))];
        writes := writes + [(at, value)];
        var allowed := WriteAllowed(q, at, |value|);
        if allowed || lands {
          memory := Write(memory, at, value);
        }
        if !allowed {
          return Some(UnintendedWrite), writes;
        }
        assert stores[n..][1..] == stores[n + 1..];
        n := n + 1;
      }
      end := None;
    }

    /** One instruction of the emulator with all hooks. */
    method StepOn(q: Request, lands: bool, cpu: C, written: seq<Store>, traced: seq<int>, ghost executed: seq<int>)
      returns (end: Option<End>, cpu': C, writes: seq<Store>, trace: seq<int>, ghost executed': seq<int>)
      requires instructions == Visited(executed) && edges == Pairs(executed)
      requires previous == if executed == [] then None else Some(executed[|executed| - 1])
      modifies `memory, `dirty, `instructions, `edges, `previous
      ensures (end, Now(cpu', writes, trace, executed')) ==
        StepOnce(isa, q, lands, old(Now(cpu, written, traced, executed)))
      ensures instructions == Visited(executed') && edges == Pairs(executed')
      ensures previous == if executed' == [] then None else Some(executed'[|executed'| - 1])
    {
      cpu', writes, trace, executed' := cpu, written, traced, executed;
      var at := isa.pc(cpu);
      if at == STOP + 2 {
        return Some(Exhausted), cpu', writes, trace, executed';
      }
      if !Mapped(memory, at, 4) {
        return Some(Unmapped), cpu', writes, trace, executed';
      }
      var window := Read(memory, at, 4);
      RecordInstruction(at, executed);
      executed' := executed + [at];
      if !isa.legal(window) {
        return Some(Illegal), cpu', writes, trace, executed';
      }
      trace := traced + [at];
      if at in q.stops || q.boundary(at) {
        return Some(Reached(at)), cpu', writes, trace, executed';
      }
      var loaded, values := LoadInputs(q, isa.loads(cpu, window));
      if loaded.Some? {
        return loaded, cpu', writes, trace, executed';
      }
      var (after, stores) := isa.execute(cpu, window, values);
      cpu' := after;
      end, writes := StoreOutputs(q, lands, cpu', stores, writes, trace, executed');
    }

    /** Emulation up to the instruction budget. */
    method EmulateFrom(q: Request, lands: bool, start: C)
      returns (end: End, cpu: C, writes: seq<Store>, trace: seq<int>, ghost executed: seq<int>)
      requires instructions == {} && edges == {} && previous == None
      modifies `memory, `dirty, `instructions, `edges, `previous
      ensures (end, Now(cpu, writes, trace, executed)) == Emulate(isa, q, lands, old(Now(start, [], [], [])), BUDGET)
      ensures instructions == Visited(executed) && edges == Pairs(executed)
    {
      cpu, writes, trace, executed := start, [], [], [];
      var left := BUDGET;
      while left > 0
        invariant 0 <= left <= BUDGET
        invariant instructions == Visited(executed) && edges == Pairs(executed)
        invariant previous == if executed == [] then None else Some(executed[|executed| - 1])
        invariant Emulate(isa, q, lands, old(Now(start, [], [], [])), BUDGET)
               == Emulate(isa, q, lands, Now(cpu, writes, trace, executed), left)
      {
        var step;
        step, cpu, writes, trace, executed := StepOn(q, lands, cpu, writes, trace, executed);
        if step.Some? {
          end := step.value;
          return;
        }
        left := left - 1;
      }
      end := Exhausted;
    }

    method Observe(ranges: seq<(nat, nat)>) returns (observed: Option<seq<seq<byte>>>)
      ensures observed == ObserveAll(memory, ranges)
    {
      observed := Some([]);
      var n := |ranges|;
      while n > 0
        invariant 0 <= n <= |ranges|
        invariant observed == ObserveAll(memory, ranges[n..])
      {
        n := n - 1;
        assert ranges[n..][1..] == ranges[n + 1..];
        if observed.Some? && Mapped(memory, ranges[n].0, ranges[n].1) {
          observed := Some([Read(memory, ranges[n].0, ranges[n].1)] + observed.value);
        } else {
          observed := None;
        }
      }
    }

    /**
     One run on the cached machine. Whatever ran before, the caller gets what a
     machine built afresh would give. The run leaves its memory and its processor
     behind, for the next one to roll back.
     */
    method Run(q: Request, lands: bool) returns (o: Outcome<C>)
      requires Valid()
      modifies this
      ensures Valid()
      ensures o == FreshRun(isa, q, lands, initialMemory, initialContext)
      ensures o.instructions == instructions && o.edges == edges
      ensures var p := Whole(isa, q, lands, initialMemory, initialContext).1;
        memory == p.memory && dirty == p.log && context == p.cpu
    {
      Restore();
      RunCanBeUndone(isa, q, lands, initialMemory, initialContext);
      var before := InitialRegisters(q.registers);
      context := isa.start(context, q.site, before, q.nzcv);
      var end, cpu, writes, trace := SeedAndEmulate(q, lands, context);
      context := cpu;
      o := Outcome(end, cpu, before, writes, trace, instructions, edges, []);
      if end.Reached? {
        if isa.cpsr(cpu) % 0x100_0000 != (if q.stopThumb then 0x30 else 0x10) {
          return o.(end := ControlChanged);
        }
        var observed := Observe(q.observe);
        o := if observed.None? then o.(end := Unmapped) else o.(observed := observed.value);
      }
    }

    /** Everything between restoring and reporting. */
    method SeedAndEmulate(q: Request, lands: bool, start: C)
      returns (end: End, cpu: C, writes: seq<Store>, trace: seq<int>)
      requires memory == initialMemory && dirty == [] &&
               start == isa.start(initialContext, q.site, InitialRegisters(q.registers), q.nzcv)
      requires instructions == {} && edges == {} && previous == None
      modifies `memory, `dirty, `instructions, `edges, `previous
      ensures var whole := Whole(isa, q, lands, initialMemory, initialContext);
        && end == whole.0 && cpu == whole.1.cpu && writes == whole.1.writes && trace == whole.1.trace
        && memory == whole.1.memory && dirty == whole.1.log
        && instructions == Visited(whole.1.executed) && edges == Pairs(whole.1.executed)
    {
      assert Now(start, [], [], []) == Begin(isa, q, initialMemory, initialContext);
      var seeded := SeedInputs(q, start);
      if !seeded {
        assert Visited([]) == {} && Pairs([]) == {};
        return Unmapped, start, [], [];
      }
      ghost var executed;
      end, cpu, writes, trace, executed := EmulateFrom(q, lands, start);
    }
  }
}
