/**
 What a successful binding of the classic leaves means for execution: source code matched by `ClassicMapping`
 runs in lockstep with the template, its RAM cells renamed. The template may use the address of a cell only to
 load from it; `Track` says which registers hold one.
 */
module LeafSimulation {
  import opened Images
  import opened Disassembly
  import opened Reachability
  import opened Runs
  import opened Thumb
  import opened ClassicMapping

  function OpOf(bytes: seq<byte>): Op {
    if |bytes| == 2 then Meaning(bytes[0] as int + 0x100 * bytes[1] as int) else Unknown
  }

  /** An instruction with the pool word it may load and its branch target, in its own program's addresses. */
  datatype Node = Node(insn: Insn, pool: Option<word>, target: Option<int>)

  datatype Config = Running(pc: int, state: State) | Returned(state: State)

  /** One instruction; None when it is not modelled. A call is not, so a modelled run never makes one. */
  function Step(n: Node, pc: int, s: State): (r: Option<Config>)
    requires s.Valid()
    ensures r.Some? ==> r.value.state.Valid()
  {
    var i, after := n.insn, pc + |n.insn.bytes|;
    if i.mnemonic.Bx? then (if OpOf(i.bytes).Return? then Some(Returned(s)) else None)
    else if Branches(i) then
      if n.target.None? then None
      else if i.mnemonic.B? then Some(Running(n.target.value, s))
      else if !i.mnemonic.BCond? || Holds(i.mnemonic.condition, s.flags).None? then None
      else Some(Running(if Holds(i.mnemonic.condition, s.flags).value then n.target.value else after, s))
    else
      match Perform(OpOf(i.bytes), n.pool, s)
      case None => None
      case Some(s') => Some(if Returns(i) then Returned(s') else Running(after, s'))
  }

  function TemplateNode(p: Problem, offset: int): Option<Node> {
    if offset in p.items && Reference(p, offset).Some? then
      var i := Reference(p, offset).value;
      Some(Node(i, p.items[offset].literal, if Target(i).Some? then Some(Target(i).value - p.entry) else None))
    else None
  }

  function SourceNode(p: Problem, pc: int): Option<Node> {
    if 0 <= pc < |p.data| && DecodeAt(p.decoder, p.data, pc).Some? then
      var i := DecodeAt(p.decoder, p.data, pc).value;
      Some(Node(i, Literal(p.data, pc), Target(i)))
    else None
  }

  /** The decoder is faithful, and its names for literal loads and for pops of the program counter fit the encodings. */
  ghost predicate Honest(decoder: Decoder) {
    forall w: seq<byte>, pc: int :: decoder(w, pc).Some? ==> HonestAbout(w, decoder(w, pc).value)
  }

  predicate HonestAbout(w: seq<byte>, i: Insn) {
    && 0 < |i.bytes| <= |w| && i.bytes == w[..|i.bytes|]
    && (|w| >= 2 && (w[0] as int + 0x100 * w[1] as int) / 0x800 == 9 ==> |i.bytes| == 2 && i.mnemonic.Ldr?)
    && (i.mnemonic.Pop? && i.mentionsPc <==> OpOf(i.bytes).Pop? && OpOf(i.bytes).pcToo)
  }

  /** Every literal load of the template is recorded as one. */
  ghost predicate WellTagged(p: Problem) {
    forall o :: o in p.items && p.items[o].literal.None? ==> !OpOf(p.items[o].bytes).LoadLiteral?
  }

  // ---------------------------------------------------------------- address discipline

  function Listed(list: nat): set<nat> {
    set r: nat | 0 <= r < 8 && list / Power(r) % 2 == 1
  }

  function RegistersOf(s: Source): set<nat> {
    if s.Register? then {s.number} else {}
  }

  /** The RAM address that each register known to hold one does hold. */
  type Tags = map<nat, word>

  /** The words a run may load: a RAM address and an offset from it. */
  type Cells = set<(int, int)>

  /**
   Which registers hold which RAM address after `op`. None when an address is computed with or saved,
   a number is used as an address, or another word than those of `cells` is loaded.
   */
  function Track(op: Op, pool: Option<word>, tags: Tags, cells: Cells): Option<Tags> {
    match op
    case LoadLiteral(rd) => Some(if pool.Some? && InRam(pool.value) then tags[rd := pool.value] else tags - {rd})
    case LoadWord(rd, rb, offset) =>
      if rb in tags && (tags[rb] as int, offset as int) in cells then Some(tags - {rd}) else None
    case Alu(_, dest, left, right) =>
      if (RegistersOf(left) + RegistersOf(right)) !! tags.Keys
      then Some(tags - if dest.Some? then {dest.value} else {})
      else None
    case Push(list, _) => if Listed(list) !! tags.Keys then Some(tags) else None
    case Pop(list, _) => Some(tags - Listed(list))
    case _ => None
  }

  function TrackNode(n: Node, tags: Tags, cells: Cells): Option<Tags> {
    if n.insn.mnemonic.Bx? || Branches(n.insn) then Some(tags) else Track(OpOf(n.insn.bytes), n.pool, tags, cells)
  }

  /** Tagged registers hold matching RAM addresses, all others the same value. */
  ghost predicate SameRegisters(roles: set<(int, int)>, tags: Tags, t: seq<word>, s: seq<word>) {
    && |t| == |s| == 8
    && forall r: nat :: r < 8 ==>
         if r in tags then t[r] == tags[r] && (t[r] as int, s[r] as int) in roles else t[r] == s[r]
  }

  function Near(cell: int, k: int): word {
    Wrap(cell + k)
  }

  /** The words that may be loaded are the same on both sides. */
  ghost predicate SameCells(roles: set<(int, int)>, cells: Cells, t: Memory, s: Memory) {
    forall a: int, b: int, k: int ::
      (a, b) in roles && (a, k) in cells ==> WordAt(t, Near(a, k)) == WordAt(s, Near(b, k))
  }

  /** Source and template machine agree up to the renaming of RAM addresses. */
  ghost predicate Related(roles: set<(int, int)>, tags: Tags, cells: Cells, t: State, s: State) {
    && t.link == s.link && t.flags == s.flags && t.stack == s.stack
    && SameRegisters(roles, tags, t.regs, s.regs)
    && SameCells(roles, cells, t.memory, s.memory)
  }

  lemma {:induction false} PushListSame(t: seq<word>, s: seq<word>, list: nat, n: nat)
    requires |t| == |s| == 8 && n <= 8
    requires forall r: nat :: r in Listed(list) ==> t[r] == s[r]
    ensures PushList(t, list, n) == PushList(s, list, n)
    decreases 8 - n
  {
    if n < 8 {
      PushListSame(t, s, list, n + 1);
      assert list / Power(n) % 2 == 1 ==> n in Listed(list);
    }
  }

  lemma {:induction false} PopListSame(t: seq<word>, s: seq<word>, stack: seq<word>, list: nat, n: nat)
    requires |t| == |s| == 8 && n <= 8
    ensures PopList(t, stack, list, n).Some? <==> PopList(s, stack, list, n).Some?
    ensures PopList(t, stack, list, n).Some? ==>
      var a, b := PopList(t, stack, list, n).value, PopList(s, stack, list, n).value;
      && a.1 == b.1
      && forall r: nat :: r < 8 ==>
           if r >= n && r in Listed(list) then a.0[r] == b.0[r] else a.0[r] == t[r] && b.0[r] == s[r]
    decreases 8 - n
  {
    if n < 8 {
      if list / Power(n) % 2 == 0 {
        PopListSame(t, s, stack, list, n + 1);
      } else if stack != [] {
        PopListSame(t[n := stack[0]], s[n := stack[0]], stack[1..], list, n + 1);
      }
    }
  }

  lemma LoadsAgree(roles: set<(int, int)>, tags: Tags, cells: Cells, rb: nat, offset: nat, t: State, s: State)
    requires Related(roles, tags, cells, t, s) && rb < 8 && rb in tags && (tags[rb] as int, offset as int) in cells
    ensures WordAt(t.memory, Wrap(t.regs[rb] + offset)) == WordAt(s.memory, Wrap(s.regs[rb] + offset))
  {
    var a, b := t.regs[rb], s.regs[rb];
    assert (a as int, b as int) in roles;
    assert WordAt(t.memory, Near(a, offset)) == WordAt(s.memory, Near(b, offset));
  }

  /** The same word in a register that no longer holds an address. */
  lemma SameAfterUpdate(roles: set<(int, int)>, tags: Tags, t: seq<word>, s: seq<word>, rd: nat, value: word)
    requires SameRegisters(roles, tags, t, s) && rd < 8
    ensures SameRegisters(roles, tags - {rd}, t[rd := value], s[rd := value])
  {
  }

  lemma LoadKeepsRelated(roles: set<(int, int)>, tags: Tags, cells: Cells, op: Op, t: State, s: State)
    requires Related(roles, tags, cells, t, s) && op.LoadWord?
    requires Track(op, None, tags, cells).Some? && Perform(op, None, t).Some?
    ensures Perform(op, None, s).Some?
    ensures Related(roles, Track(op, None, tags, cells).value, cells, Perform(op, None, t).value,
      Perform(op, None, s).value)
  {
    LoadsAgree(roles, tags, cells, op.rb, op.offset, t, s);
    SameAfterUpdate(roles, tags, t.regs, s.regs, op.rd, WordAt(t.memory, Wrap(t.regs[op.rb] + op.offset)));
  }

  lemma AluKeepsRelated(roles: set<(int, int)>, tags: Tags, cells: Cells, op: Op, t: State, s: State)
    requires Related(roles, tags, cells, t, s) && op.Alu?
    requires Track(op, None, tags, cells).Some? && Perform(op, None, t).Some?
    ensures Perform(op, None, s).Some?
    ensures Related(roles, Track(op, None, tags, cells).value, cells, Perform(op, None, t).value,
      Perform(op, None, s).value)
  {
    forall x | x == op.left || x == op.right ensures Read(t.regs, x) == Read(s.regs, x) {
      if x.Register? {
        assert x.number in RegistersOf(op.left) + RegistersOf(op.right);
      }
    }
  }

  lemma StackKeepsRelated(roles: set<(int, int)>, tags: Tags, cells: Cells, op: Op, t: State, s: State)
    requires Related(roles, tags, cells, t, s) && (op.Push? || op.Pop?)
    requires Track(op, None, tags, cells).Some? && Perform(op, None, t).Some?
    ensures Perform(op, None, s).Some?
    ensures Related(roles, Track(op, None, tags, cells).value, cells, Perform(op, None, t).value,
      Perform(op, None, s).value)
  {
    if op.Push? {
      forall r: nat | r in Listed(op.list) ensures t.regs[r] == s.regs[r] {
        assert r !in tags;
      }
      PushListSame(t.regs, s.regs, op.list, 0);
    } else {
      PopListSame(t.regs, s.regs, t.stack, op.list, 0);
    }
  }

  /** The two pool words are matching RAM addresses or the same word. */
  predicate SamePool(roles: set<(int, int)>, tp: Option<word>, sp: Option<word>) {
    && tp.Some? && sp.Some?
    && if InRam(tp.value) then (tp.value as int, sp.value as int) in roles else tp == sp
  }

  /** A modelled operation that respects the discipline keeps the machines related. */
  lemma PerformKeepsRelated(roles: set<(int, int)>, tags: Tags, cells: Cells, op: Op, tp: Option<word>,
                            sp: Option<word>, t: State, s: State)
    requires Related(roles, tags, cells, t, s)
    requires op.LoadLiteral? ==> SamePool(roles, tp, sp)
    requires Track(op, tp, tags, cells).Some? && Perform(op, tp, t).Some?
    ensures Perform(op, sp, s).Some?
    ensures Related(roles, Track(op, tp, tags, cells).value, cells, Perform(op, tp, t).value, Perform(op, sp, s).value)
  {
    if op.LoadWord? {
      LoadKeepsRelated(roles, tags, cells, op, t, s);
    } else if op.Alu? {
      AluKeepsRelated(roles, tags, cells, op, t, s);
    } else if op.Push? || op.Pop? {
      StackKeepsRelated(roles, tags, cells, op, t, s);
    }
  }

  // ---------------------------------------------------------------- lockstep

  lemma UpperByteOfLoad(low: byte, high: byte)
    ensures (low as int + 0x100 * high as int) / 0x800 == 9 <==> high / 8 == 9
  {
  }

  /** Two halfwords with the same upper byte, which says that they load a literal, load the same register. */
  lemma LoadsOfOneRegister(a: seq<byte>, b: seq<byte>)
    requires |a| == |b| == 2 && a[1] == b[1] && a[1] / 8 == 9
    ensures OpOf(a) == OpOf(b) && OpOf(b).LoadLiteral?
  {
    UpperByteOfLoad(a[0], a[1]);
    UpperByteOfLoad(b[0], b[1]);
  }

  /** Where a literal is found, the decoder reads the two bytes of a literal load. */
  lemma LoadIsDecoded(p: Problem, pc: nat)
    requires Honest(p.decoder) && Literal(p.data, pc).Some? && DecodeAt(p.decoder, p.data, pc).Some?
    ensures var i := DecodeAt(p.decoder, p.data, pc).value; |i.bytes| == 2 && i.mnemonic.Ldr? && i.bytes[1] / 8 == 9
  {
    var window, i := Slice(p.data, pc, pc + 4), DecodeAt(p.decoder, p.data, pc).value;
    assert HonestAbout(window, i);
    assert window[0] == p.data[pc] && window[1] == p.data[pc + 1];
    UpperByteOfLoad(window[0], window[1]);
  }

  /** Matched literal loads have the same operation. */
  lemma MatchedLoads(p: Problem, at: Pair)
    requires Honest(p.decoder) && Visit(p, at).Some? && p.items[at.0].literal.Some?
    ensures var t, s := TemplateNode(p, at.0).value.insn, SourceNode(p, at.1).value.insn;
      OpOf(t.bytes) == OpOf(s.bytes) && OpOf(t.bytes).LoadLiteral? && t.mnemonic.Ldr?
  {
    LoadIsDecoded(p, at.1);
    var expected := p.items[at.0].bytes;
    var actual, reference := DecodeAt(p.decoder, p.data, at.1).value, Reference(p, at.0).value;
    assert HonestAbout(expected, reference);
    assert |actual.bytes[1..]| == |expected[1..]|;
    assert actual.bytes[1] == actual.bytes[1..][0] == expected[1..][0] == expected[1];
    UpperByteOfLoad(expected[0], expected[1]);
    LoadsOfOneRegister(actual.bytes, expected);
  }

  /** And they load matching words. */
  lemma MatchedPools(p: Problem, at: Pair, roles: set<(int, int)>)
    requires Visit(p, at).Some? && p.items[at.0].literal.Some?
    requires Role(p, at).Some? ==> Role(p, at).value in roles
    ensures SamePool(roles, p.items[at.0].literal, Literal(p.data, at.1))
  {
  }

  /** Matched literal loads load one register with matching words. */
  lemma LiteralsAgree(p: Problem, at: Pair, roles: set<(int, int)>)
    requires Honest(p.decoder) && Visit(p, at).Some? && p.items[at.0].literal.Some?
    requires Role(p, at).Some? ==> Role(p, at).value in roles
    ensures var t, s := TemplateNode(p, at.0).value.insn, SourceNode(p, at.1).value.insn;
      && OpOf(t.bytes) == OpOf(s.bytes) && OpOf(t.bytes).LoadLiteral? && t.mnemonic.Ldr?
      && SamePool(roles, p.items[at.0].literal, Literal(p.data, at.1))
  {
    MatchedLoads(p, at);
    MatchedPools(p, at, roles);
  }

  /** Equal bytes do the same thing in both programs. */
  lemma PlainInstructionsAgree(p: Problem, at: Pair)
    requires Honest(p.decoder) && WellTagged(p) && Visit(p, at).Some? && p.items[at.0].literal.None?
    requires !Branches(DecodeAt(p.decoder, p.data, at.1).value)
    ensures var t, s := TemplateNode(p, at.0).value.insn, SourceNode(p, at.1).value.insn;
      t.bytes == s.bytes && Returns(t) == Returns(s) && !OpOf(t.bytes).LoadLiteral?
  {
    var window, expected := Slice(p.data, at.1, at.1 + 4), p.items[at.0].bytes;
    var actual, reference := DecodeAt(p.decoder, p.data, at.1).value, Reference(p, at.0).value;
    assert HonestAbout(window, actual) && HonestAbout(expected, reference);
    assert reference.bytes == expected;
  }

  /** What the match of one pair gives, without the search that found it. */
  ghost predicate NodesMatch(v: set<Pair>, roles: set<(int, int)>, at: Pair, t: Node, s: Node) {
    && t.insn.mnemonic == s.insn.mnemonic
    && var after := (at.0 + |t.insn.bytes|, at.1 + |s.insn.bytes|);
    if t.insn.mnemonic.Bx? || !Branches(t.insn) then
      && OpOf(t.insn.bytes) == OpOf(s.insn.bytes) && Returns(t.insn) == Returns(s.insn)
      && (OpOf(t.insn.bytes).LoadLiteral? ==> SamePool(roles, t.pool, s.pool))
      && (!Returns(t.insn) ==> after in v)
    else
      && t.target.Some? && s.target.Some? && (t.target.value, s.target.value) in v
      && (!t.insn.mnemonic.B? ==> after in v)
  }

  /** Where control may go from a matched pair is matched too. */
  lemma MatchedSuccessors(p: Problem, v: set<Pair>, at: Pair)
    requires Visit(p, at).Some? && Visit(p, at).value <= v
    ensures var a, r := DecodeAt(p.decoder, p.data, at.1).value, Reference(p, at.0).value;
      && a.mnemonic == r.mnemonic
      && (!Returns(a) && !a.mnemonic.B? ==> (at.0 + |r.bytes|, at.1 + |a.bytes|) in v)
      && (p.items[at.0].literal.None? && Branches(a) ==>
          Target(r).Some? && Target(a).Some? && (Target(r).value - p.entry, Target(a).value) in v)
  {
  }

  lemma {:induction false} VisitedNodesMatch(p: Problem, v: set<Pair>, roles: set<(int, int)>, at: Pair)
    requires Visit(p, at).Some? && Visit(p, at).value <= v
    requires Role(p, at).Some? ==> Role(p, at).value in roles
    requires Honest(p.decoder) && WellTagged(p)
    ensures NodesMatch(v, roles, at, TemplateNode(p, at.0).value, SourceNode(p, at.1).value)
  {
    MatchedSuccessors(p, v, at);
    if p.items[at.0].literal.Some? {
      LiteralsAgree(p, at, roles);
    } else if !Branches(DecodeAt(p.decoder, p.data, at.1).value) {
      PlainInstructionsAgree(p, at);
    }
  }

  lemma MatchedNodes(p: Problem, v: set<Pair>, at: Pair)
    requires Consistent(p, v) && Closed(Next(p), v) && at in v
    requires Honest(p.decoder) && WellTagged(p)
    ensures TemplateNode(p, at.0).Some? && SourceNode(p, at.1).Some?
    ensures NodesMatch(v, Roles(p, v), at, TemplateNode(p, at.0).value, SourceNode(p, at.1).value)
  {
    assert Visit(p, at).Some? && Next(p)(at) <= v;
    assert Role(p, at).Some? ==> Role(p, at).value in Roles(p, v);
    VisitedNodesMatch(p, v, Roles(p, v), at);
  }

  /** Both ended, or both run on at matched addresses; related either way. */
  ghost predicate InStep(v: set<Pair>, roles: set<(int, int)>, tags: Tags, cells: Cells, t: Config, s: Config) {
    && t.Running? == s.Running?
    && (t.Running? ==> (t.pc, s.pc) in v)
    && Related(roles, tags, cells, t.state, s.state)
  }

  /** Nothing was stored from `s` to `s'`. */
  ghost predicate SameMemory(s: State, s': State) {
    s'.memory == s.memory && s'.stores == s.stores
  }

  /** The discipline admits no store. */
  lemma TrackedStoresNothing(op: Op, tp: Option<word>, sp: Option<word>, tags: Tags, cells: Cells, s: State)
    requires s.Valid() && Track(op, tp, tags, cells).Some? && Perform(op, sp, s).Some?
    ensures SameMemory(s, Perform(op, sp, s).value)
  {
  }

  /** One template instruction is matched by one source instruction. */
  lemma StepSimulated(v: set<Pair>, roles: set<(int, int)>, at: Pair, tags: Tags, cells: Cells, tn: Node, sn: Node,
                      t: State, s: State)
    requires NodesMatch(v, roles, at, tn, sn) && Related(roles, tags, cells, t, s)
    requires Step(tn, at.0, t).Some? && TrackNode(tn, tags, cells).Some?
    ensures Step(sn, at.1, s).Some?
    ensures InStep(v, roles, TrackNode(tn, tags, cells).value, cells, Step(tn, at.0, t).value, Step(sn, at.1, s).value)
    ensures SameMemory(s, Step(sn, at.1, s).value.state)
  {
    var op := OpOf(tn.insn.bytes);
    if !tn.insn.mnemonic.Bx? && !Branches(tn.insn) {
      PerformKeepsRelated(roles, tags, cells, op, tn.pool, sn.pool, t, s);
      TrackedStoresNothing(op, tn.pool, sn.pool, tags, cells, s);
    }
  }

  /** A template run under the address discipline: where it is and which registers hold addresses. */
  datatype Tracked = Tracked(config: Config, tags: Tags)

  /** One instruction of the template; None when it is not modelled or breaks the discipline. A return ends the run. */
  function TemplateStep(p: Problem, cells: Cells, c: Tracked): Option<Tracked> {
    if !c.config.state.Valid() then None
    else if c.config.Returned? then Some(c)
    else
      match TemplateNode(p, c.config.pc)
      case None => None
      case Some(node) =>
        var next, tags := Step(node, c.config.pc, c.config.state), TrackNode(node, c.tags, cells);
        if next.None? || tags.None? then None else Some(Tracked(next.value, tags.value))
  }

  /** One instruction of the source image, with no discipline imposed. */
  function SourceStep(p: Problem, c: Config): Option<Config> {
    if !c.state.Valid() then None
    else if c.Returned? then Some(c)
    else match SourceNode(p, c.pc) case None => None case Some(node) => Step(node, c.pc, c.state)
  }

  function OnTemplate(p: Problem, cells: Cells): Tracked -> Option<Tracked> {
    c => TemplateStep(p, cells, c)
  }

  function OnSource(p: Problem): Config -> Option<Config> {
    c => SourceStep(p, c)
  }

  /** The joint control flow matches, and decoder and template are as they should be. */
  ghost predicate Bound(p: Problem, v: set<Pair>) {
    Consistent(p, v) && Closed(Next(p), v) && Honest(p.decoder) && WellTagged(p)
  }

  /** Template and source, somewhere along their runs, in step; the source has stored nothing since `s0`. */
  ghost predicate Matching(p: Problem, v: set<Pair>, cells: Cells, s0: State, t: Tracked, s: Config) {
    && t.config.state.Valid() && s.state.Valid() && InStep(v, Roles(p, v), t.tags, cells, t.config, s)
    && SameMemory(s0, s.state)
  }

  lemma OneStepSimulated(p: Problem, v: set<Pair>, cells: Cells, s0: State, t: Tracked, s: Config)
    requires Bound(p, v) && Matching(p, v, cells, s0, t, s) && TemplateStep(p, cells, t).Some?
    ensures SourceStep(p, s).Some?
    ensures Matching(p, v, cells, s0, TemplateStep(p, cells, t).value, SourceStep(p, s).value)
  {
    if t.config.Running? {
      var at := (t.config.pc, s.pc);
      MatchedNodes(p, v, at);
      var tn, sn := TemplateNode(p, at.0).value, SourceNode(p, at.1).value;
      StepSimulated(v, Roles(p, v), at, t.tags, cells, tn, sn, t.config.state, s.state);
    }
  }

  ghost function InLockstep(p: Problem, v: set<Pair>, cells: Cells, s0: State): (Tracked, Config) -> bool {
    (t, s) => Matching(p, v, cells, s0, t, s)
  }

  lemma StepsSimulate(p: Problem, v: set<Pair>, cells: Cells, s0: State)
    requires Bound(p, v)
    ensures Simulates(OnTemplate(p, cells), OnSource(p), InLockstep(p, v, cells, s0))
  {
    forall t, s | InLockstep(p, v, cells, s0)(t, s) && OnTemplate(p, cells)(t).Some?
      ensures OnSource(p)(s).Some?
      ensures InLockstep(p, v, cells, s0)(OnTemplate(p, cells)(t).value, OnSource(p)(s).value)
    {
      OneStepSimulated(p, v, cells, s0, t, s);
    }
  }

  lemma RunSimulated(p: Problem, v: set<Pair>, cells: Cells, t: Tracked, s: Config, n: nat, end: Tracked)
    returns (end': Config)
    requires Bound(p, v) && Matching(p, v, cells, s.state, t, s) && Run(OnTemplate(p, cells), t, n) == Some(end)
    ensures Run(OnSource(p), s, n) == Some(end') && Matching(p, v, cells, s.state, end, end')
  {
    StepsSimulate(p, v, cells, s.state);
    assert InLockstep(p, v, cells, s.state)(t, s);
    RunsSimulate(OnTemplate(p, cells), OnSource(p), InLockstep(p, v, cells, s.state), t, s, n);
    end' := Run(OnSource(p), s, n).value;
    assert InLockstep(p, v, cells, s.state)(end, end');
  }

  /**
   Whenever the binding succeeds, every modelled template run from either root is
   followed by the source in lockstep, instruction by instruction, with the RAM
   addresses renamed by `Roles`.
   */
  lemma BoundLeavesSimulateTemplate(p: Problem, v: set<Pair>, cells: Cells, root: Pair, t: State, s: State, n: nat,
                                    end: Tracked)
    returns (end': Config)
    requires Qualifies(p, v) && root in Roots(p) && Honest(p.decoder) && WellTagged(p)
    requires t.Valid() && s.Valid() && Related(Roles(p, v), map[], cells, t, s)
    requires Run(OnTemplate(p, cells), Tracked(Running(root.0, t), map[]), n) == Some(end)
    ensures Run(OnSource(p), Running(root.1, s), n) == Some(end')
    ensures InStep(v, Roles(p, v), end.tags, cells, end.config, end') && SameMemory(s, end'.state)
  {
    assert InStep(v, Roles(p, v), map[], cells, Running(root.0, t), Running(root.1, s));
    end' := RunSimulated(p, v, cells, Tracked(Running(root.0, t), map[]), Running(root.1, s), n, end);
  }
}
