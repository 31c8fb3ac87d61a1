/**
 The part of the Thumb instruction set that the bound native routines use,
 after section A7.1 of the ARM Architecture Reference Manual (DDI 0100).
 Only the zero and carry flags are kept: no modelled condition reads the others.
 */
module Thumb {
  import opened Images
  import opened Disassembly

  datatype Source = Register(number: nat) | Constant(value: word)
  datatype Kind = Move | Add | Subtract | ShiftLeft | ShiftRight

  /** `dest` is None for a comparison. */
  datatype Op =
    | LoadLiteral(rd: nat)
    | LoadWord(rd: nat, rb: nat, offset: nat)
    | StoreWord(rt: nat, rb: nat, offset: nat)
    | StoreByte(rt: nat, rb: nat, offset: nat)
    | Alu(kind: Kind, dest: Option<nat>, left: Source, right: Source)
    | Push(list: nat, linkToo: bool)
    | Pop(list: nat, pcToo: bool)
    | BranchIf(condition: Condition, distance: int)
    | Branch(distance: int)
    | Return
    | Unknown

  function ConditionOf(code: int): Option<Condition> {
    match code
    case 0 => Some(EQ) case 1 => Some(NE) case 2 => Some(HS) case 3 => Some(LO)
    case 4 => Some(MI) case 5 => Some(PL) case 6 => Some(VS) case 7 => Some(VC)
    case 8 => Some(HI) case 9 => Some(LS) case 10 => Some(GE) case 11 => Some(LT)
    case 12 => Some(GT) case 13 => Some(LE) case _ => None
  }

  function SignExtend(value: int, half: int): int {
    if value < half then value else value - 2 * half
  }

  /** The operation a halfword stands for. */
  function Meaning(h: int): Op
  {
    if h < 0 then Unknown
    else if h < 0x0800 then Alu(ShiftLeft, Some(h % 8), Register(h / 8 % 8), Constant(h / 64 % 32))
    else if h < 0x1000 then
      Alu(ShiftRight, Some(h % 8), Register(h / 8 % 8), Constant(if h / 64 % 32 == 0 then 32 else h / 64 % 32))
    else if h < 0x1800 then Unknown
    else if h < 0x1a00 then Alu(Add, Some(h % 8), Register(h / 8 % 8), Register(h / 64 % 8))
    else if h < 0x1c00 then Alu(Subtract, Some(h % 8), Register(h / 8 % 8), Register(h / 64 % 8))
    else if h < 0x1e00 then Alu(Add, Some(h % 8), Register(h / 8 % 8), Constant(h / 64 % 8))
    else if h < 0x2000 then Alu(Subtract, Some(h % 8), Register(h / 8 % 8), Constant(h / 64 % 8))
    else if h < 0x2800 then Alu(Move, Some(h / 256 % 8), Constant(0), Constant(h % 256))
    else if h < 0x3000 then Alu(Subtract, None, Register(h / 256 % 8), Constant(h % 256))
    else if h < 0x3800 then Alu(Add, Some(h / 256 % 8), Register(h / 256 % 8), Constant(h % 256))
    else if h < 0x4000 then Alu(Subtract, Some(h / 256 % 8), Register(h / 256 % 8), Constant(h % 256))
    else if 0x4280 <= h < 0x42c0 then Alu(Subtract, None, Register(h % 8), Register(h / 8 % 8))
    else if h == 0x4770 then Return
    else if h < 0x4800 then Unknown
    else if h < 0x5000 then LoadLiteral(h / 256 % 8)
    else if 0x6000 <= h < 0x6800 then StoreWord(h % 8, h / 8 % 8, h / 64 % 32 * 4)
    else if 0x6800 <= h < 0x7000 then LoadWord(h % 8, h / 8 % 8, h / 64 % 32 * 4)
    else if 0x7000 <= h < 0x7800 then StoreByte(h % 8, h / 8 % 8, h / 64 % 32)
    else if 0xb400 <= h < 0xb600 then Push(h % 256, h / 256 % 2 == 1)
    else if 0xbc00 <= h < 0xbe00 then Op.Pop(h % 256, h / 256 % 2 == 1)
    else if 0xd000 <= h < 0xde00 && ConditionOf(h / 256 % 16).Some? then
      BranchIf(ConditionOf(h / 256 % 16).value, 2 * SignExtend(h % 256, 128))
    else if 0xe000 <= h < 0xe800 then Branch(2 * SignExtend(h % 0x800, 0x400))
    else Unknown
  }

  datatype Flags = Flags(zero: bool, carry: bool)

  type Memory = int -> byte

  /** The low registers, the link register, the words pushed so far, memory, and the log of stores. */
  datatype State = State(regs: seq<word>, link: word, flags: Flags, stack: seq<word>, memory: Memory,
                         stores: seq<(int, byte)>) {
    predicate Valid() { |regs| == 8 }
  }

  function WordAt(memory: Memory, at: int): word {
    memory(at) as int + 0x100 * memory(at + 1) as int + 0x1_0000 * memory(at + 2) as int +
    0x100_0000 * memory(at + 3) as int
  }

  function Power(n: nat): nat
    ensures Power(n) > 0
  {
    if n == 0 then 1 else 2 * Power(n - 1)
  }

  /** Whether a condition holds; None when it reads a flag that is not modelled. */
  function Holds(c: Condition, f: Flags): Option<bool> {
    match c
    case EQ => Some(f.zero)
    case NE => Some(!f.zero)
    case HS => Some(f.carry)
    case LO => Some(!f.carry)
    case HI => Some(f.carry && !f.zero)
    case LS => Some(!f.carry || f.zero)
    case _ => None
  }

  predicate InRange(s: Source) {
    s.Register? ==> s.number < 8
  }

  function Read(regs: seq<word>, s: Source): word
    requires |regs| == 8 && InRange(s)
  {
    match s case Register(n) => regs[n] case Constant(v) => v
  }

  lemma NoSmallerProduct(q: int, p: int)
    requires q >= 0 && p >= 1
    ensures q * p >= q
  {
    assert q * (p - 1) >= 0;
  }

  lemma QuotientBound(a: int, p: int)
    requires p > 0 && a >= 0
    ensures 0 <= a / p <= a
  {
    assert a == a / p * p + a % p;
    NoSmallerProduct(a / p, p);
  }

  function Result(k: Kind, a: word, b: word): word {
    match k
    case Move => b
    case Add => Wrap(a + b)
    case Subtract => Wrap(a - b)
    case ShiftLeft => Wrap(a * Power(b))
    case ShiftRight => QuotientBound(a, Power(b)); a / Power(b)
  }

  function CarryOut(k: Kind, a: word, b: word, carry: bool): bool {
    match k
    case Move => carry
    case Add => a + b >= 0x1_0000_0000
    case Subtract => a >= b
    case ShiftLeft => if b == 0 then carry else if b > 32 then false else a / Power(32 - b) % 2 == 1
    case ShiftRight => if b == 0 then carry else a / Power(b - 1) % 2 == 1
  }

  function PushList(regs: seq<word>, list: nat, n: nat): seq<word>
    requires |regs| == 8 && n <= 8
    decreases 8 - n
  {
    if n == 8 then [] else (if list / Power(n) % 2 == 1 then [regs[n]] else []) + PushList(regs, list, n + 1)
  }

  /** Registers of the list, lowest first, from the lowest stack words; None when the stack is too short. */
  function PopList(regs: seq<word>, stack: seq<word>, list: nat, n: nat): Option<(seq<word>, seq<word>)>
    requires |regs| == 8 && n <= 8
    ensures PopList(regs, stack, list, n).Some? ==> |PopList(regs, stack, list, n).value.0| == 8
    decreases 8 - n
  {
    if n == 8 then Some((regs, stack))
    else if list / Power(n) % 2 == 0 then PopList(regs, stack, list, n + 1)
    else if stack == [] then None
    else PopList(regs[n := stack[0]], stack[1..], list, n + 1)
  }

  /** A word stored, its low byte first. */
  function Stored(s: State, at: word, value: word): State {
    s.(memory := (a: int) => if 0 <= a - at < 4 then ByteOf(value, a - at) else s.memory(a),
       stores := s.stores + seq(4, i => (at + i, ByteOf(value, i))))
  }

  lemma StoredIsHeld(s: State, at: word, value: word)
    ensures WordAt(Stored(s, at, value).memory, at) == value
  {
    WordOfBytes(value);
  }

  /** One operation that does not branch. `pool` is the word a literal load finds. */
  function Perform(op: Op, pool: Option<word>, s: State): (r: Option<State>)
    requires s.Valid()
    ensures r.Some? ==> r.value.Valid()
  {
    match op
    case LoadLiteral(rd) =>
      if rd < 8 && pool.Some? then Some(s.(regs := s.regs[rd := pool.value])) else None
    case LoadWord(rd, rb, offset) =>
      if rd < 8 && rb < 8 then Some(s.(regs := s.regs[rd := WordAt(s.memory, Wrap(s.regs[rb] + offset))])) else None
    case StoreWord(rt, rb, offset) =>
      if rt < 8 && rb < 8 then Some(Stored(s, Wrap(s.regs[rb] + offset), s.regs[rt])) else None
    case StoreByte(rt, rb, offset) =>
      if rt < 8 && rb < 8 then
        var at, value := Wrap(s.regs[rb] + offset), s.regs[rt] % 256;
        Some(s.(memory := (a: int) => if a == at then value else s.memory(a), stores := s.stores + [(at, value)]))
      else None
    case Alu(kind, dest, left, right) =>
      if InRange(left) && InRange(right) && (dest.Some? ==> dest.value < 8) then
        var a, b := Read(s.regs, left), Read(s.regs, right);
        var result := Result(kind, a, b);
        Some(s.(regs := if dest.Some? then s.regs[dest.value := result] else s.regs,
                flags := Flags(result == 0, CarryOut(kind, a, b, s.flags.carry))))
      else None
    case Push(list, linkToo) =>
      Some(s.(stack := PushList(s.regs, list, 0) + (if linkToo then [s.link] else []) + s.stack))
    case Pop(list, pcToo) =>
      (match PopList(s.regs, s.stack, list, 0)
       case None => None
       case Some((regs, stack)) =>
         if !pcToo then Some(s.(regs := regs, stack := stack))
         else if stack == [] then None
         else Some(s.(regs := regs, stack := stack[1..])))
    case _ => None
  }

  // ---------------------------------------------------------------- straight code

  /** The operation at each address, and the pool word a literal load there would find. */
  datatype Program = Program(op: nat -> Op, pool: nat -> Option<word>)

  function ProgramOf(data: seq<byte>): Program {
    Program((pc: nat) => Meaning(Half(data, pc)), (pc: nat) => Literal(data, pc))
  }

  /** Runs from `pc` until the code returns; None when it does something else first. */
  function Execute(p: Program, pc: nat, s: State, budget: nat): Option<State>
    requires s.Valid()
    decreases budget
  {
    var op := p.op(pc);
    if budget == 0 then None
    else if op.Return? then Some(s)
    else if op.BranchIf? then
      if Holds(op.condition, s.flags).None? || pc + 4 + op.distance < 0 then None
      else Execute(p, if Holds(op.condition, s.flags).value then pc + 4 + op.distance else pc + 2, s, budget - 1)
    else if op.Branch? then
      if pc + 4 + op.distance < 0 then None else Execute(p, pc + 4 + op.distance, s, budget - 1)
    else
      var next := Perform(op, p.pool(pc), s);
      if next.None? || (op.Pop? && op.pcToo) then next else Execute(p, pc + 2, next.value, budget - 1)
  }

  function Plus(a: nat, b: nat): nat {
    a + b
  }

  /** `n` instructions from `pc` and `s` lead to `pc'` and `s'`. */
  ghost predicate Leads(p: Program, pc: nat, s: State, n: nat, pc': nat, s': State) {
    s.Valid() && s'.Valid() && forall budget: nat :: Execute(p, pc, s, Plus(budget, n)) == Execute(p, pc', s', budget)
  }

  lemma Then(p: Program, pc: nat, s: State, n: nat, pc1: nat, s1: State, m: nat, pc2: nat, s2: State)
    requires Leads(p, pc, s, n, pc1, s1) && Leads(p, pc1, s1, m, pc2, s2)
    ensures Leads(p, pc, s, n + m, pc2, s2)
  {
    forall budget: nat ensures Execute(p, pc, s, Plus(budget, n + m)) == Execute(p, pc2, s2, budget) {
      assert Execute(p, pc1, s1, Plus(budget, m)) == Execute(p, pc2, s2, budget);
      assert Plus(budget, n + m) == Plus(Plus(budget, m), n);
    }
  }

  predicate Straight(op: Op) {
    !op.Return? && !op.BranchIf? && !op.Branch? && !(op.Pop? && op.pcToo)
  }

  /** One straight-line instruction. */
  lemma StepOver(p: Program, pc: nat, s: State) returns (s': State)
    requires s.Valid() && Straight(p.op(pc)) && Perform(p.op(pc), p.pool(pc), s).Some?
    ensures Perform(p.op(pc), p.pool(pc), s) == Some(s')
    ensures Leads(p, pc, s, 1, pc + 2, s')
  {
    s' := Perform(p.op(pc), p.pool(pc), s).value;
    forall budget: nat ensures Execute(p, pc, s, Plus(budget, 1)) == Execute(p, pc + 2, s', budget) {
    }
  }

  lemma StepLiteral(p: Program, pc: nat, s: State, rd: nat, value: word) returns (s': State)
    requires s.Valid() && p.op(pc) == LoadLiteral(rd) && rd < 8 && p.pool(pc) == Some(value)
    ensures s' == s.(regs := s.regs[rd := value])
    ensures Leads(p, pc, s, 1, pc + 2, s')
  {
    s' := StepOver(p, pc, s);
  }

  lemma StepLoad(p: Program, pc: nat, s: State, rd: nat, rb: nat, offset: nat) returns (s': State)
    requires s.Valid() && p.op(pc) == LoadWord(rd, rb, offset) && rd < 8 && rb < 8
    ensures s' == s.(regs := s.regs[rd := WordAt(s.memory, Wrap(s.regs[rb] + offset))])
    ensures Leads(p, pc, s, 1, pc + 2, s')
  {
    s' := StepOver(p, pc, s);
  }

  /** Arithmetic into a register. */
  lemma StepAlu(p: Program, pc: nat, s: State, kind: Kind, rd: nat, left: Source, right: Source) returns (s': State)
    requires s.Valid() && p.op(pc) == Alu(kind, Some(rd), left, right) && rd < 8 && InRange(left) && InRange(right)
    ensures s' == s.(regs := s.regs[rd := Result(kind, Read(s.regs, left), Read(s.regs, right))], flags := s'.flags)
    ensures Leads(p, pc, s, 1, pc + 2, s')
  {
    s' := StepOver(p, pc, s);
  }

  /** A comparison; `zero` and `carry` say how its operands compare. */
  lemma StepCompare(p: Program, pc: nat, s: State, left: Source, right: Source) returns (s': State)
    requires s.Valid() && p.op(pc) == Alu(Subtract, None, left, right) && InRange(left) && InRange(right)
    ensures s' ==
      s.(flags := Flags(Read(s.regs, left) == Read(s.regs, right), Read(s.regs, left) >= Read(s.regs, right)))
    ensures Leads(p, pc, s, 1, pc + 2, s')
  {
    s' := StepOver(p, pc, s);
  }

  lemma StepStore(p: Program, pc: nat, s: State, rt: nat, rb: nat) returns (s': State)
    requires s.Valid() && p.op(pc) == StoreByte(rt, rb, 0) && rt < 8 && rb < 8
    ensures s'.regs == s.regs && s'.link == s.link && s'.stack == s.stack
    ensures s'.stores == s.stores + [(s.regs[rb] as int, s.regs[rt] % 256)]
    ensures forall a :: s'.memory(a) == if a == s.regs[rb] then s.regs[rt] % 256 else s.memory(a)
    ensures Leads(p, pc, s, 1, pc + 2, s')
  {
    s' := StepOver(p, pc, s);
  }

  /** A conditional branch goes to `next`. */
  lemma StepBranchIf(p: Program, pc: nat, s: State, c: Condition, distance: int, next: nat)
    requires s.Valid() && p.op(pc) == BranchIf(c, distance) && Holds(c, s.flags).Some?
    requires pc + 4 + distance >= 0 && next == if Holds(c, s.flags).value then pc + 4 + distance else pc + 2
    ensures Leads(p, pc, s, 1, next, s)
  {
    forall budget: nat ensures Execute(p, pc, s, Plus(budget, 1)) == Execute(p, next, s, budget) {
    }
  }

  /** A conditional branch that is not taken. */
  lemma StepPast(p: Program, pc: nat, s: State, c: Condition, distance: nat)
    requires s.Valid() && p.op(pc) == BranchIf(c, distance) && Holds(c, s.flags) == Some(false)
    ensures Leads(p, pc, s, 1, pc + 2, s)
  {
    forall budget: nat ensures Execute(p, pc, s, Plus(budget, 1)) == Execute(p, pc + 2, s, budget) {
    }
  }

  lemma LowHalfword(x: word)
    ensures Wrap(x * 0x1_0000) / 0x1_0000 == x % 0x1_0000
  {
    var r := x % 0x1_0000;
    assert x * 0x1_0000 == x / 0x1_0000 * 0x1_0000_0000 + r * 0x1_0000;
    assert Wrap(x * 0x1_0000) == r * 0x1_0000;
  }

  lemma LowBytes(x: word)
    ensures Wrap(x * 0x100) / 0x100 == x % 0x100_0000
  {
    var r := x % 0x100_0000;
    assert x * 0x100 == x / 0x100_0000 * 0x1_0000_0000 + r * 0x100;
    assert Wrap(x * 0x100) == r * 0x100;
  }

  lemma SmallPowers()
    ensures Power(8) == 0x100 && Power(16) == 0x1_0000
  {
    assert Power(8) == 256 && Power(16) == 65536;
  }

  /** Two shifts by the same amount keep the low bits. */
  lemma ShiftPairKeepsLowBits(x: word)
    ensures Result(ShiftRight, Result(ShiftLeft, x, 16), 16) == x % 0x1_0000
    ensures Result(ShiftRight, Result(ShiftLeft, x, 8), 8) == x % 0x100_0000
  {
    SmallPowers();
    LowHalfword(x);
    LowBytes(x);
  }
}
