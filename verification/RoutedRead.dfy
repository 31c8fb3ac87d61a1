/**
 The call site of the inverse leaf in ReadValue (scripts/firmware_execution/classic_mapping.py and
 read_value.py): the working word is loaded, the leaf is called, and its result is stored back. With bound
 code the word becomes its image under the address map, which is the third equation of the disc audit.
 */
module RoutedRead {
  import opened Images
  import opened Disassembly
  import opened Runs
  import opened Thumb
  import opened AddressMap
  import opened DiscGeometry
  import opened ClassicMapping
  import opened LeafSimulation
  import opened ClassicTemplate
  import opened ClassicBinding
  import opened DiscAudit
  import opened ThumbDecoder
  import opened ClassicRelocation
  import opened ClassicInstance

  /** A call of `target`. */
  predicate IsCall(p: Problem, pc: nat, target: int) {
    var i := DecodeAt(p.decoder, p.data, pc);
    i.Some? && i.value.isCall && |i.value.bytes| == 4 && Target(i.value) == Some(target)
  }

  predicate IsJump(p: Problem, pc: nat, target: int) {
    var i := DecodeAt(p.decoder, p.data, pc);
    i.Some? && i.value.mnemonic.B? && Target(i.value) == Some(target)
  }

  /** What the audits demand of the site: both loads of r1 name `cell`, and between them the inverse leaf is called. */
  predicate CallSite(p: Problem, at: nat, cell: word, stop: int) {
    && Half(p.data, at) / 0x100 == 0x49 && Literal(p.data, at) == Some(cell)
    && Half(p.data, at + 2) == 0x6808
    && IsCall(p, at + 4, p.inverse)
    && Half(p.data, at + 8) / 0x100 == 0x49 && Literal(p.data, at + 8) == Some(cell)
    && Half(p.data, at + 10) == 0x6008
    && IsJump(p, at + 12, stop)
  }

  /** One instruction that does not branch. */
  function Plainly(data: seq<byte>, pc: nat, s: State): Option<State>
    requires s.Valid()
    ensures Plainly(data, pc, s).Some? ==> Plainly(data, pc, s).value.Valid()
  {
    Perform(Meaning(Half(data, pc)), Literal(data, pc), s)
  }

  /** Two of them. */
  function PlainlyTwice(data: seq<byte>, pc: nat, s: State): Option<State>
    requires s.Valid()
    ensures PlainlyTwice(data, pc, s).Some? ==> PlainlyTwice(data, pc, s).value.Valid()
  {
    var next := Plainly(data, pc, s);
    if next.None? then None else Plainly(data, pc + 2, next.value)
  }

  /** A call whose callee returns after `n` instructions, to where the link says. */
  function Called(p: Problem, pc: nat, s: State, n: nat): Option<State> {
    var i := DecodeAt(p.decoder, p.data, pc);
    if i.None? || !i.value.isCall || Target(i.value).None? then None
    else
      var back := Wrap(pc + |i.value.bytes| + 1);
      var end: Option<Config> := Run(OnSource(p), Running(Target(i.value).value, s.(link := back)), n);
      if end.Some? && end.value.Returned? && end.value.state.link == back then Some(end.value.state) else None
  }

  /** From the first load to the jump behind the store: where it goes, and the state there. */
  function Routed(p: Problem, at: nat, s: State, n: nat): Option<(int, State)>
    requires s.Valid()
  {
    var loaded := PlainlyTwice(p.data, at, s);
    var mapped := if loaded.None? then None else Called(p, at + 4, loaded.value, n);
    var stored := if mapped.None? || !mapped.value.Valid() then None else PlainlyTwice(p.data, at + 8, mapped.value);
    var jump := DecodeAt(p.decoder, p.data, at + 12);
    if stored.None? || jump.None? || !jump.value.mnemonic.B? || Target(jump.value).None? then None
    else Some((Target(jump.value).value, stored.value))
  }

  lemma LoadsWorkingWord(h: int)
    requires h / 0x100 == 0x49
    ensures Meaning(h) == LoadLiteral(1)
  {
  }

  lemma SiteOpcodes()
    ensures Meaning(0x6808) == LoadWord(0, 1, 0) && Meaning(0x6008) == StoreWord(0, 1, 0)
  {
  }

  lemma LoadsInPlace(s: State, cell: word)
    requires s.Valid() && s.regs[1] == cell
    ensures Perform(LoadWord(0, 1, 0), None, s) == Some(s.(regs := s.regs[0 := WordAt(s.memory, cell)]))
    ensures forall pool :: Perform(LoadWord(0, 1, 0), pool, s) == Perform(LoadWord(0, 1, 0), None, s)
  {
  }

  lemma StoresInPlace(s: State, cell: word)
    requires s.Valid() && s.regs[1] == cell
    ensures Perform(StoreWord(0, 1, 0), None, s) == Some(Stored(s, cell, s.regs[0]))
    ensures forall pool :: Perform(StoreWord(0, 1, 0), pool, s) == Perform(StoreWord(0, 1, 0), None, s)
  {
  }

  /** The address of the working word in r1, and the word in r0. */
  function Loaded(s: State, cell: word): (s': State)
    requires s.Valid()
    ensures s'.Valid() && s'.memory == s.memory
  {
    s.(regs := s.regs[1 := cell][0 := WordAt(s.memory, cell)])
  }

  /** r0 in the working word. */
  function StoredBack(s: State, cell: word): (s': State)
    requires s.Valid()
    ensures s'.Valid()
  {
    Stored(s.(regs := s.regs[1 := cell]), cell, s.regs[0])
  }

  /** The word gets into r0. */
  lemma SiteLoads(p: Problem, at: nat, cell: word, stop: int, s: State)
    requires CallSite(p, at, cell, stop) && s.Valid()
    ensures PlainlyTwice(p.data, at, s) == Some(Loaded(s, cell))
  {
    LoadsWorkingWord(Half(p.data, at));
    SiteOpcodes();
    var s1 := s.(regs := s.regs[1 := cell]);
    assert Plainly(p.data, at, s) == Some(s1);
    LoadsInPlace(s1, cell);
  }

  /** And r0 back into the word. */
  lemma SiteStores(p: Problem, at: nat, cell: word, stop: int, s: State)
    requires CallSite(p, at, cell, stop) && s.Valid()
    ensures PlainlyTwice(p.data, at + 8, s) == Some(StoredBack(s, cell))
  {
    LoadsWorkingWord(Half(p.data, at + 8));
    SiteOpcodes();
    var s1 := s.(regs := s.regs[1 := cell]);
    assert Plainly(p.data, at + 8, s) == Some(s1);
    StoresInPlace(s1, cell);
  }

  /** In between the leaf computes the address map, and leaves memory as it is. */
  lemma SiteCalls(p: Problem, v: set<Pair>, ram: map<int, int>, at: nat, cell: word, stop: int, s: State)
    returns (n: nat, s': State)
    requires Native(p) && BoundTo(p, v, ram) && CellsIn(ram) && CallSite(p, at, cell, stop) && s.Valid()
    ensures Called(p, at + 4, s, n) == Some(s') && s'.Valid()
    ensures s'.regs[0] == Normalize(s.regs[0], EndsHeld(ram, s.memory))
    ensures SameMemory(s, s') && s'.stack == s.stack && forall r: nat :: 4 <= r < 8 ==> s'.regs[r] == s.regs[r]
  {
    n, s' := BoundInverseNormalizes(p, v, ram, s.(link := Wrap(at + 9)));
  }

  /** The site left by its jump, with `value` in the working word and nothing else stored. */
  ghost predicate Writes(s: State, cell: word, value: word, s': State) {
    && s.Valid() && s'.Valid() && WordAt(s'.memory, cell) == value
    && (forall a :: !(0 <= a - cell < 4) ==> s'.memory(a) == s.memory(a))
    && s'.stack == s.stack && forall r: nat :: 4 <= r < 8 ==> s'.regs[r] == s.regs[r]
  }

  lemma SiteGoes(p: Problem, at: nat, cell: word, stop: int, s: State, loaded: State, n: nat, mapped: State,
                 s': State)
    requires CallSite(p, at, cell, stop) && s.Valid() && mapped.Valid()
    requires PlainlyTwice(p.data, at, s) == Some(loaded) && Called(p, at + 4, loaded, n) == Some(mapped)
    requires PlainlyTwice(p.data, at + 8, mapped) == Some(s')
    ensures Routed(p, at, s, n) == Some((stop, s'))
  {
  }

  lemma StoreWrites(s: State, loaded: State, mapped: State, cell: word, s': State)
    requires s.Valid() && mapped.Valid() && loaded == Loaded(s, cell)
    requires SameMemory(loaded, mapped) && mapped.stack == loaded.stack
    requires forall r: nat :: 4 <= r < 8 ==> mapped.regs[r] == loaded.regs[r]
    requires s' == StoredBack(mapped, cell)
    ensures Writes(s, cell, mapped.regs[0], s')
  {
    StoredIsHeld(mapped.(regs := mapped.regs[1 := cell]), cell, mapped.regs[0]);
  }

  /** Whatever the working word and the ends that bound code finds in its cells, the site maps the word in place. */
  lemma RoutedReadNormalizes(p: Problem, v: set<Pair>, ram: map<int, int>, at: nat, cell: word, stop: int, s: State)
    returns (n: nat, s': State)
    requires Native(p) && BoundTo(p, v, ram) && CellsIn(ram) && CallSite(p, at, cell, stop) && s.Valid()
    ensures Routed(p, at, s, n) == Some((stop, s'))
    ensures Writes(s, cell, Normalize(WordAt(s.memory, cell), EndsHeld(ram, s.memory)), s')
  {
    var loaded := Loaded(s, cell);
    SiteLoads(p, at, cell, stop, s);
    var mapped;
    n, mapped := SiteCalls(p, v, ram, at, cell, stop, loaded);
    SiteStores(p, at, cell, stop, mapped);
    s' := StoredBack(mapped, cell);
    SiteGoes(p, at, cell, stop, s, loaded, n, mapped, s');
    StoreWrites(s, loaded, mapped, cell, s');
  }

  /** On a mirrored disc the site replaces sector plus 0x100000 by the physical address of the table. */
  lemma RoutedReadLocates(p: Problem, v: set<Pair>, ram: map<int, int>, g: Geometry, e: Ends, lba: int, psn: word,
                          at: nat, cell: word, stop: int, s: State)
    returns (n: nat, s': State)
    requires Native(p) && BoundTo(p, v, ram) && CellsIn(ram) && CallSite(p, at, cell, stop) && s.Valid()
    requires Locates(g, e, lba, psn) && EndsHeld(ram, s.memory) == e
    requires WordAt(s.memory, cell) == lba + FIRST_PHYSICAL
    ensures Routed(p, at, s, n) == Some((stop, s')) && Writes(s, cell, psn, s')
  {
    n, s' := RoutedReadNormalizes(p, v, ram, at, cell, stop, s);
    NormalizeLocates(g, e, lba, psn);
  }

  // ---------------------------------------------------------------- such a site

  /** A call site behind the carrier of the template, with its pool word. */
  const SITE: seq<byte> := [0x03, 0x49, 0x08, 0x68, 0xff, 0xf7, 0x89, 0xfe, 0x01, 0x49, 0x08, 0x60, 0x00, 0xe0,
                            0x00, 0x00, 0x00, 0x0f, 0x00, 0x02]

  lemma SiteByte(data: seq<byte>, ram: map<int, int>, i: nat)
    requires data == Carrier(ram) + SITE && i < |SITE|
    ensures |data| == 0x2fc && data[0x2e8 + i] == SITE[i]
  {
  }

  lemma SiteHalf(data: seq<byte>, ram: map<int, int>, i: nat)
    requires data == Carrier(ram) + SITE && i + 2 <= |SITE|
    ensures Half(data, 0x2e8 + i) == SITE[i] as int + 0x100 * SITE[i + 1] as int
  {
    SiteByte(data, ram, i);
    SiteByte(data, ram, i + 1);
  }

  lemma SiteLiterals(data: seq<byte>, ram: map<int, int>)
    requires data == Carrier(ram) + SITE
    ensures Half(data, 0x2e8) == 0x4903 && Half(data, 0x2f0) == 0x4901
    ensures Literal(data, 0x2e8) == Literal(data, 0x2f0) == Some(0x0200_0f00)
  {
    SiteHalf(data, ram, 0);
    SiteHalf(data, ram, 8);
    SiteByte(data, ram, 16);
    SiteByte(data, ram, 17);
    SiteByte(data, ram, 18);
    SiteByte(data, ram, 19);
  }

  lemma SiteAccesses(data: seq<byte>, ram: map<int, int>)
    requires data == Carrier(ram) + SITE
    ensures Half(data, 0x2ea) == 0x6808 && Half(data, 0x2f2) == 0x6008
  {
    SiteHalf(data, ram, 2);
    SiteHalf(data, ram, 10);
  }

  lemma SiteCall(p: Problem, ram: map<int, int>)
    requires p.data == Carrier(ram) + SITE && p.decoder == Decode
    ensures IsCall(p, 0x2ec, 2)
  {
    SiteByte(p.data, ram, 4);
    SiteByte(p.data, ram, 5);
    SiteByte(p.data, ram, 6);
    SiteByte(p.data, ram, 7);
    var call := Slice(p.data, 0x2ec, 0x2f0);
    assert call == [0xff, 0xf7, 0x89, 0xfe];
  }

  lemma SiteJump(p: Problem, ram: map<int, int>)
    requires p.data == Carrier(ram) + SITE && p.decoder == Decode
    ensures IsJump(p, 0x2f4, 0x2f8)
  {
    SiteByte(p.data, ram, 12);
    SiteByte(p.data, ram, 13);
    var jump := Slice(p.data, 0x2f4, 0x2f8);
    assert jump[..2] == [0x00, 0xe0];
    assert OpOf([0x00, 0xe0]) == Branch(0);
  }

  lemma SiteIsCallSite(p: Problem, ram: map<int, int>)
    requires p.data == Carrier(ram) + SITE && p.decoder == Decode && p.inverse == 2
    ensures CallSite(p, 0x2e8, 0x0200_0f00, 0x2f8)
  {
    SiteAccesses(p.data, ram);
    SiteLiterals(p.data, ram);
    SiteCall(p, ram);
    SiteJump(p, ram);
  }

  /** Bound code and a call site of it exist together, wherever in RAM the cells are. */
  lemma RoutedSiteExists(entry: int, ram: map<int, int>) returns (p: Problem, v: set<Pair>)
    requires IsRenaming(ram)
    ensures Native(p) && p.entry == entry && BoundTo(p, v, ram) && CallSite(p, 0x2e8, 0x0200_0f00, 0x2f8)
  {
    p, v := BindingExists(entry, ram, SITE);
    SiteIsCallSite(p, ram);
  }
}
