/**
 The native AKE setter (scripts/firmware_execution/ake_setter.py): recognising one of four opcode sequences in
 an image, and what executing the recognised code stores. The 32-bit sums are kept as the code makes them.
 */
module Setter {
  import opened Images
  import opened Thumb
  import opened Disassembly

  const RAM_LOW := 0x01ff_0000
  const RAM_HIGH := 0x0204_0000

  datatype Shape = Common | Short | Adjusted | AdjustedCommon

  const SHAPES := [Common, Short, Adjusted, AdjustedCommon]

  /** The halfwords of a shape; None stands for a literal load into R2. */
  function Grammar(shape: Shape): seq<Option<int>> {
    match shape
    case Common => [Some(0x2802), Some(0xd20c), None, Some(0x1880), None, Some(0x0400), Some(0x6812), Some(0x0c00),
                    Some(0x1810), None, Some(0x0200), Some(0x6812), Some(0x0a00), Some(0x1880), Some(0x7001),
                    Some(0x4770)]
    case Short => [Some(0x2802), Some(0xd20a), None, Some(0x1880), None, Some(0x6812), Some(0x1810), None,
                   Some(0x0200), Some(0x6812), Some(0x0a00), Some(0x1880), Some(0x7001), Some(0x4770)]
    case Adjusted => [Some(0x2802), Some(0xd20b), None, Some(0x3a3c), Some(0x1880), None, Some(0x6812), Some(0x1810),
                      None, Some(0x0200), Some(0x6812), Some(0x0a00), Some(0x1880), Some(0x7001), Some(0x4770)]
    case AdjustedCommon => [Some(0x2802), Some(0xd20d), None, Some(0x3a3c), Some(0x1880), None, Some(0x0400),
                            Some(0x6812), Some(0x0c00), Some(0x1810), None, Some(0x0200), Some(0x6812), Some(0x0a00),
                            Some(0x1880), Some(0x7001), Some(0x4770)]
  }

  predicate FitsOne(data: seq<byte>, at: nat, op: Option<int>) {
    if op.Some? then Half(data, at) == op.value else Half(data, at) / 0x100 == 0x4a
  }

  predicate Fits(data: seq<byte>, setter: nat, shape: Shape) {
    forall i :: 0 <= i < |Grammar(shape)| ==> FitsOne(data, setter + 2 * i, Grammar(shape)[i])
  }

  /** The branch over the body, which tells the shapes apart. */
  function SecondHalfword(shape: Shape): int {
    match shape case Common => 0xd20c case Short => 0xd20a case Adjusted => 0xd20b case AdjustedCommon => 0xd20d
  }

  lemma FitsSecond(data: seq<byte>, setter: nat, shape: Shape)
    requires Fits(data, setter, shape)
    ensures Half(data, setter + 2) == SecondHalfword(shape)
  {
    assert FitsOne(data, setter + 2 * 1, Grammar(shape)[1]);
  }

  /** No code fits two shapes. */
  lemma ShapeIsUnique(data: seq<byte>, setter: nat, shape: Shape, other: Shape)
    requires Fits(data, setter, shape) && Fits(data, setter, other)
    ensures shape == other
  {
    FitsSecond(data, setter, shape);
    FitsSecond(data, setter, other);
  }

  predicate Adjusts(shape: Shape) {
    shape.Adjusted? || shape.AdjustedCommon?
  }

  /** The shapes that cut the cell index to sixteen bits. */
  predicate Truncates(shape: Shape) {
    shape.Common? || shape.AdjustedCommon?
  }

  /** Place of the load of the first and the second relocation cell. */
  function FirstLoad(shape: Shape): nat {
    if Adjusts(shape) then 10 else 8
  }

  function SecondLoad(shape: Shape): nat {
    match shape case Common => 18 case Short => 14 case Adjusted => 16 case AdjustedCommon => 20
  }

  datatype Contract = Contract(setter: nat, shape: Shape, offset: int, firstCell: word, secondCell: word)

  predicate IsCell(a: int) {
    RAM_LOW <= a < RAM_HIGH && a % 4 == 0
  }

  /**
   The contract of code that fits a shape; None when a literal is outside the image or the cells
   are not two RAM words.
   */
  function ContractOf(data: seq<byte>, setter: nat, shape: Shape): Option<Contract> {
    var offset, first, second := Literal(data, setter + 4), Literal(data, setter + FirstLoad(shape)),
      Literal(data, setter + SecondLoad(shape));
    if offset.None? || first.None? || second.None? then None
    else if first == second || !IsCell(first.value) || !IsCell(second.value) then None
    else Some(Contract(setter, shape, offset.value - if Adjusts(shape) then 0x3c else 0, first.value, second.value))
  }

  // ---------------------------------------------------------------- execution

  const LITERAL := LoadLiteral(2)
  const ADD_TO_INDEX := Alu(Add, Some(0), Register(0), Register(2))
  const ADJUST := Alu(Subtract, Some(2), Register(2), Constant(0x3c))
  const ADD_CELL := Alu(Add, Some(0), Register(2), Register(0))
  const LOAD := LoadWord(2, 2, 0)
  const UP_16 := Alu(ShiftLeft, Some(0), Register(0), Constant(16))
  const DOWN_16 := Alu(ShiftRight, Some(0), Register(0), Constant(16))
  const UP_8 := Alu(ShiftLeft, Some(0), Register(0), Constant(8))
  const DOWN_8 := Alu(ShiftRight, Some(0), Register(0), Constant(8))
  const COMPARE := Alu(Subtract, None, Register(0), Constant(2))

  /** R0 has a new value; R2 and the flags are scratch; all else is as before. */
  ghost predicate OnlyIndexChanged(s: State, s': State, index: int) {
    && s.Valid() && s'.Valid() && s'.regs[0] == index
    && (forall r: nat :: r < 8 && r != 0 && r != 2 ==> s'.regs[r] == s.regs[r])
    && s'.link == s.link && s'.stack == s.stack && s'.memory == s.memory && s'.stores == s.stores
  }

  lemma WrapOfSum(a: word, b: int)
    requires -0x1_0000_0000 <= b < 0x1_0000_0000
    ensures Wrap(a + Wrap(b)) == Wrap(a + b)
  {
    assert Wrap(b) == if b < 0 then b + 0x1_0000_0000 else b;
  }

  /** First the offset is added to the AGID. */
  lemma AddOffset(p: Program, pc: nat, s: State, offset: word) returns (s': State)
    requires s.Valid() && p.op(pc) == LITERAL && p.op(pc + 2) == ADD_TO_INDEX && p.pool(pc) == Some(offset)
    ensures OnlyIndexChanged(s, s', Wrap(s.regs[0] + offset))
    ensures Leads(p, pc, s, 2, pc + 4, s')
  {
    var s1 := StepLiteral(p, pc, s, 2, offset);
    s' := StepAlu(p, pc + 2, s1, Add, 0, Register(0), Register(2));
    Then(p, pc, s, 1, pc + 2, s1, 1, pc + 4, s');
  }

  lemma AddAdjustedOffset(p: Program, pc: nat, s: State, offset: word) returns (s': State)
    requires s.Valid() && p.op(pc) == LITERAL && p.op(pc + 2) == ADJUST && p.op(pc + 4) == ADD_TO_INDEX &&
             p.pool(pc) == Some(offset)
    ensures OnlyIndexChanged(s, s', Wrap(s.regs[0] + (offset - 0x3c)))
    ensures Leads(p, pc, s, 3, pc + 6, s')
  {
    var s1 := StepLiteral(p, pc, s, 2, offset);
    var s2 := StepAlu(p, pc + 2, s1, Subtract, 2, Register(2), Constant(0x3c));
    s' := StepAlu(p, pc + 4, s2, Add, 0, Register(0), Register(2));
    WrapOfSum(s.regs[0], offset - 0x3c);
    Then(p, pc, s, 1, pc + 2, s1, 1, pc + 4, s2);
    Then(p, pc, s, 2, pc + 4, s2, 1, pc + 6, s');
  }

  /** Then the first cell is added. */
  lemma AddFirstCell(p: Program, pc: nat, s: State, cell: word) returns (s': State)
    requires s.Valid() && p.op(pc) == LITERAL && p.op(pc + 2) == LOAD && p.op(pc + 4) == ADD_CELL &&
             p.pool(pc) == Some(cell)
    ensures OnlyIndexChanged(s, s', Wrap(s.regs[0] + WordAt(s.memory, cell)))
    ensures Leads(p, pc, s, 3, pc + 6, s')
  {
    var s1 := StepLiteral(p, pc, s, 2, cell);
    var s2 := StepLoad(p, pc + 2, s1, 2, 2, 0);
    s' := StepAlu(p, pc + 4, s2, Add, 0, Register(2), Register(0));
    Then(p, pc, s, 1, pc + 2, s1, 1, pc + 4, s2);
    Then(p, pc, s, 2, pc + 4, s2, 1, pc + 6, s');
  }

  lemma CutBits(x: word, low: word, bits: word)
    requires (bits == 16 && low == 0x1_0000) || (bits == 8 && low == 0x100_0000)
    ensures Result(ShiftRight, Result(ShiftLeft, x, bits), bits) == x % low
  {
    ShiftPairKeepsLowBits(x);
  }

  lemma ShiftUpAndLoad(p: Program, pc: nat, s: State, bits: word) returns (s': State)
    requires s.Valid() && p.op(pc) == Alu(ShiftLeft, Some(0), Register(0), Constant(bits)) && p.op(pc + 2) == LOAD
    ensures OnlyIndexChanged(s, s', Result(ShiftLeft, s.regs[0], bits))
    ensures s'.regs[2] == WordAt(s.memory, s.regs[2]) && Leads(p, pc, s, 2, pc + 4, s')
  {
    var s1 := StepAlu(p, pc, s, ShiftLeft, 0, Register(0), Constant(bits));
    s' := StepLoad(p, pc + 2, s1, 2, 2, 0);
    Then(p, pc, s, 1, pc + 2, s1, 1, pc + 4, s');
  }

  /** The low bits of R0, with R2 loaded between the two shifts. */
  lemma CutIndex(p: Program, pc: nat, s: State, low: word, bits: word) returns (s': State)
    requires s.Valid() && ((bits == 16 && low == 0x1_0000) || (bits == 8 && low == 0x100_0000))
    requires p.op(pc) == Alu(ShiftLeft, Some(0), Register(0), Constant(bits)) && p.op(pc + 2) == LOAD
    requires p.op(pc + 4) == Alu(ShiftRight, Some(0), Register(0), Constant(bits))
    ensures OnlyIndexChanged(s, s', s.regs[0] % low) && s'.regs[2] == WordAt(s.memory, s.regs[2])
    ensures Leads(p, pc, s, 3, pc + 6, s')
  {
    var s2 := ShiftUpAndLoad(p, pc, s, bits);
    s' := StepAlu(p, pc + 4, s2, ShiftRight, 0, Register(0), Constant(bits));
    CutBits(s.regs[0], low, bits);
    Then(p, pc, s, 2, pc + 4, s2, 1, pc + 6, s');
  }

  /** A cell is added to the low bits of the index. */
  lemma AddCellToLowBits(p: Program, pc: nat, s: State, cell: word, low: word, bits: word, add: Op) returns (s': State)
    requires s.Valid() &&
             ((bits == 16 && low == 0x1_0000 && add == ADD_CELL) ||
              (bits == 8 && low == 0x100_0000 && add == ADD_TO_INDEX))
    requires p.op(pc) == LITERAL && p.pool(pc) == Some(cell)
    requires p.op(pc + 2) == Alu(ShiftLeft, Some(0), Register(0), Constant(bits)) && p.op(pc + 4) == LOAD
    requires p.op(pc + 6) == Alu(ShiftRight, Some(0), Register(0), Constant(bits)) && p.op(pc + 8) == add
    ensures OnlyIndexChanged(s, s', Wrap(s.regs[0] % low + WordAt(s.memory, cell)))
    ensures Leads(p, pc, s, 5, pc + 10, s')
  {
    var s1 := StepLiteral(p, pc, s, 2, cell);
    var s2 := CutIndex(p, pc + 2, s1, low, bits);
    s' := StepAlu(p, pc + 8, s2, Add, 0, add.left, add.right);
    Then(p, pc, s, 1, pc + 2, s1, 3, pc + 8, s2);
    Then(p, pc, s, 4, pc + 8, s2, 1, pc + 10, s');
  }

  /** The comparison with two. */
  lemma CompareWithTwo(p: Program, pc: nat, s: State) returns (s': State)
    requires s.Valid() && p.op(pc) == COMPARE
    ensures s' == s.(flags := Flags(s.regs[0] == 2, s.regs[0] >= 2)) && Leads(p, pc, s, 1, pc + 2, s')
  {
    s' := StepCompare(p, pc, s, Register(0), Constant(2));
  }

  /** The bound check that opens every shape: below two control falls through. */
  lemma BelowBound(p: Program, pc: nat, s: State, distance: nat) returns (s': State)
    requires s.Valid() && p.op(pc) == COMPARE && p.op(pc + 2) == BranchIf(HS, distance) && s.regs[0] < 2
    ensures s' == s.(flags := s'.flags) && Leads(p, pc, s, 2, pc + 4, s')
  {
    s' := CompareWithTwo(p, pc, s);
    StepPast(p, pc + 2, s', HS, distance);
    Then(p, pc, s, 1, pc + 2, s', 1, pc + 4, s');
  }

  /** From two on it goes to the return. */
  lemma PastBound(p: Program, pc: nat, s: State, distance: nat, last: nat) returns (s': State)
    requires s.Valid() && p.op(pc) == COMPARE && p.op(pc + 2) == BranchIf(HS, distance) && s.regs[0] >= 2
    requires last == pc + 6 + distance
    ensures s' == s.(flags := s'.flags) && Leads(p, pc, s, 2, last, s')
  {
    s' := CompareWithTwo(p, pc, s);
    StepBranchIf(p, pc + 2, s', HS, distance, last);
    Then(p, pc, s, 1, pc + 2, s', 1, last, s');
  }

  /** The state after one byte store by a routine that may clobber R0, R2 and the flags. */
  ghost predicate StoredOneByte(s: State, s': State, at: int, value: byte) {
    && s.Valid() && s'.Valid()
    && (forall r: nat :: r < 8 && r != 0 && r != 2 ==> s'.regs[r] == s.regs[r])
    && s'.link == s.link && s'.stack == s.stack
    && s'.stores == s.stores + [(at, value)]
    && forall a :: s'.memory(a) == if a == at then value else s.memory(a)
  }

  const STORE := StoreByte(1, 0, 0)

  /** The operations of the halfwords that the shapes name. */
  function Named(h: int): Option<Op> {
    match h
    case 0x2802 => Some(COMPARE)
    case 0x1880 => Some(ADD_TO_INDEX)
    case 0x3a3c => Some(ADJUST)
    case 0x1810 => Some(ADD_CELL)
    case 0x6812 => Some(LOAD)
    case 0x0400 => Some(UP_16)
    case 0x0c00 => Some(DOWN_16)
    case 0x0200 => Some(UP_8)
    case 0x0a00 => Some(DOWN_8)
    case 0x7001 => Some(STORE)
    case 0x4770 => Some(Return)
    case 0xd20c => Some(BranchIf(HS, 24))
    case 0xd20a => Some(BranchIf(HS, 20))
    case 0xd20b => Some(BranchIf(HS, 22))
    case 0xd20d => Some(BranchIf(HS, 26))
    case _ => None
  }

  lemma LowNames(h: int)
    requires Named(h).Some? && h < 0x3000
    ensures Meaning(h) == Named(h).value
  {
  }

  lemma HighNames(h: int)
    requires Named(h).Some? && h >= 0x3000
    ensures Meaning(h) == Named(h).value
  {
  }

  lemma NameIsMeaning(h: int)
    requires Named(h).Some?
    ensures Meaning(h) == Named(h).value
  {
    if h < 0x3000 {
      LowNames(h);
    } else {
      HighNames(h);
    }
  }

  /** The operation a grammar entry stands for. */
  function Denoted(entry: Option<int>): Option<Op> {
    if entry.None? then Some(LITERAL) else Named(entry.value)
  }

  lemma FitDenotes(data: seq<byte>, at: nat, entry: Option<int>)
    requires FitsOne(data, at, entry) && Denoted(entry).Some?
    ensures ProgramOf(data).op(at) == Denoted(entry).value
  {
    if entry.Some? {
      NameIsMeaning(entry.value);
    }
  }

  // The parts of a shape, each with its operations and, for its literal load, the word found.

  ghost predicate EntryOps(p: Program, at: nat, shape: Shape) {
    && p.op(at) == COMPARE && p.op(at + 2) == BranchIf(HS, Length(shape) - 8)
    && p.op(at + Length(shape) - 2) == Return
  }

  ghost predicate OffsetOps(p: Program, at: nat, offset: word) {
    p.op(at) == LITERAL && p.pool(at) == Some(offset) && p.op(at + 2) == ADD_TO_INDEX
  }

  ghost predicate AdjustedOffsetOps(p: Program, at: nat, offset: word) {
    p.op(at) == LITERAL && p.pool(at) == Some(offset) && p.op(at + 2) == ADJUST && p.op(at + 4) == ADD_TO_INDEX
  }

  ghost predicate FirstOps(p: Program, at: nat, first: word) {
    p.op(at) == LITERAL && p.pool(at) == Some(first) && p.op(at + 2) == LOAD && p.op(at + 4) == ADD_CELL
  }

  ghost predicate TruncatedFirstOps(p: Program, at: nat, first: word) {
    && p.op(at) == LITERAL && p.pool(at) == Some(first) && p.op(at + 2) == UP_16 && p.op(at + 4) == LOAD
    && p.op(at + 6) == DOWN_16 && p.op(at + 8) == ADD_CELL
  }

  ghost predicate SecondOps(p: Program, at: nat, second: word) {
    && p.op(at) == LITERAL && p.pool(at) == Some(second)
    && p.op(at + 2) == UP_8 && p.op(at + 4) == LOAD && p.op(at + 6) == DOWN_8 && p.op(at + 8) == ADD_TO_INDEX
    && p.op(at + 10) == STORE
  }

  function Length(shape: Shape): nat {
    match shape case Common => 32 case Short => 28 case Adjusted => 30 case AdjustedCommon => 34
  }

  lemma SecondPart(p: Program, at: nat, second: word, s: State) returns (s': State)
    requires SecondOps(p, at, second) && s.Valid()
    ensures StoredOneByte(s, s', Wrap(s.regs[0] % 0x100_0000 + WordAt(s.memory, second)), s.regs[1] % 256)
    ensures Leads(p, at, s, 6, at + 12, s')
  {
    var s1 := AddCellToLowBits(p, at, s, second, 0x100_0000, 8, ADD_TO_INDEX);
    s' := StepStore(p, at + 10, s1, 1, 0);
    Then(p, at, s, 5, at + 10, s1, 1, at + 12, s');
  }

  lemma ScratchThenStore(s: State, s1: State, s': State, index: int, at: int)
    requires OnlyIndexChanged(s, s1, index) && StoredOneByte(s1, s', at, s1.regs[1] % 256)
    ensures StoredOneByte(s, s', at, s.regs[1] % 256)
  {
  }

  /** Where the setter stores for one AGID: the offset and the contents of the two cells decide. */
  function Destination(c: Contract, agid: int, first: int, second: int): int {
    ((if Truncates(c.shape) then (agid + c.offset) % 0x1_0000 else agid + c.offset) + first) % 0x100_0000 + second
  }

  lemma ModuloOfWrap(x: int)
    ensures Wrap(x) % 0x1_0000 == x % 0x1_0000
    ensures Wrap(x) % 0x100_0000 == x % 0x100_0000
  {
    var q := x / 0x1_0000_0000;
    assert x == 0x1_0000 * (0x1_0000 * q) + Wrap(x);
    assert x == 0x100_0000 * (0x100 * q) + Wrap(x);
  }

  lemma ModuloOfSum(x: int, y: int)
    ensures (Wrap(x) + y) % 0x100_0000 == (x + y) % 0x100_0000
  {
  }

  /** The truncated sums of the code add up to the same address. */
  lemma DestinationIsTheSum(c: Contract, agid: word, first: word, second: word)
    ensures var index := Wrap(agid + c.offset);
      var sum := Wrap((if Truncates(c.shape) then index % 0x1_0000 else index) + first);
      sum % 0x100_0000 + second == Destination(c, agid, first, second)
  {
    var index := Wrap(agid + c.offset);
    ModuloOfWrap(agid + c.offset);
    ModuloOfWrap((if Truncates(c.shape) then index % 0x1_0000 else index) + first);
    ModuloOfSum(agid + c.offset, first);
  }

  /** What executing recognised code does: below two it stores the state byte at the destination, otherwise nothing. */
  ghost predicate Effect(c: Contract, s: State, s': State)
    requires s.Valid()
  {
    if s.regs[0] < 2 then
      StoredOneByte(s, s',
        Wrap(Destination(c, s.regs[0], WordAt(s.memory, c.firstCell), WordAt(s.memory, c.secondCell))), s.regs[1] % 256)
    else s' == s.(flags := s'.flags)
  }

  lemma PastBoundHasEffect(p: Program, c: Contract, s: State) returns (s': State)
    requires s.Valid() && s.regs[0] >= 2 && EntryOps(p, c.setter, c.shape)
    ensures Execute(p, c.setter, s, 3) == Some(s') && Effect(c, s, s')
  {
    s' := PastBound(p, c.setter, s, Length(c.shape) - 8, c.setter + Length(c.shape) - 2);
    Finish(p, c.setter, s, 2, c.setter + Length(c.shape) - 2, s');
  }

  /** A run that leads to the return returns. */
  lemma Finish(p: Program, pc: nat, s: State, n: nat, last: nat, s': State)
    requires Leads(p, pc, s, n, last, s') && p.op(last) == Return
    ensures Execute(p, pc, s, n + 1) == Some(s')
  {
    assert Execute(p, pc, s, Plus(1, n)) == Execute(p, last, s', 1);
  }

  /** The operations of a shape, which its grammar denotes one by one. */
  function Code(shape: Shape): seq<Op> {
    match shape
    case Common => [COMPARE, BranchIf(HS, 24), LITERAL, ADD_TO_INDEX, LITERAL, UP_16, LOAD, DOWN_16,
                    ADD_CELL, LITERAL, UP_8, LOAD, DOWN_8, ADD_TO_INDEX, STORE, Return]
    case Short => [COMPARE, BranchIf(HS, 20), LITERAL, ADD_TO_INDEX, LITERAL, LOAD, ADD_CELL, LITERAL,
                   UP_8, LOAD, DOWN_8, ADD_TO_INDEX, STORE, Return]
    case Adjusted => [COMPARE, BranchIf(HS, 22), LITERAL, ADJUST, ADD_TO_INDEX, LITERAL, LOAD, ADD_CELL,
                      LITERAL, UP_8, LOAD, DOWN_8, ADD_TO_INDEX, STORE, Return]
    case AdjustedCommon => [COMPARE, BranchIf(HS, 26), LITERAL, ADJUST, ADD_TO_INDEX, LITERAL, UP_16, LOAD,
                            DOWN_16, ADD_CELL, LITERAL, UP_8, LOAD, DOWN_8, ADD_TO_INDEX, STORE, Return]
  }

  ghost predicate Denotes(shape: Shape) {
    && |Grammar(shape)| == |Code(shape)|
    && forall i :: 0 <= i < |Code(shape)| ==> Denoted(Grammar(shape)[i]) == Some(Code(shape)[i])
  }

  lemma CommonDenotes()
    ensures Denotes(Common)
  {
  }

  lemma ShortDenotes()
    ensures Denotes(Short)
  {
  }

  lemma {:induction false} AdjustedDenotes()
    ensures Denotes(Adjusted)
  {
  }

  lemma AdjustedCommonDenotes()
    ensures Denotes(AdjustedCommon)
  {
  }

  lemma ShapesDenote(shape: Shape)
    ensures Denotes(shape)
  {
    CommonDenotes();
    ShortDenotes();
    AdjustedDenotes();
    AdjustedCommonDenotes();
  }

  ghost predicate CodeAt(p: Program, setter: nat, code: seq<Op>) {
    forall i :: 0 <= i < |code| ==> p.op(setter + 2 * i) == code[i]
  }

  lemma GrammarIsCode(data: seq<byte>, setter: nat, shape: Shape)
    requires Fits(data, setter, shape)
    ensures CodeAt(ProgramOf(data), setter, Code(shape))
  {
    ShapesDenote(shape);
    forall i | 0 <= i < |Code(shape)| ensures ProgramOf(data).op(setter + 2 * i) == Code(shape)[i] {
      FitDenotes(data, setter + 2 * i, Grammar(shape)[i]);
    }
  }

  // No other halfword stands for the same operation.

  lemma ArithmeticIsUnique(h: int)
    ensures Meaning(h) == ADD_TO_INDEX ==> h == 0x1880
    ensures Meaning(h) == ADD_CELL ==> h == 0x1810
    ensures Meaning(h) == ADJUST ==> h == 0x3a3c
    ensures Meaning(h) == COMPARE ==> h == 0x2802
  {
  }

  lemma ShiftIsUnique(h: int)
    ensures Meaning(h) == UP_16 ==> h == 0x0400
    ensures Meaning(h) == DOWN_16 ==> h == 0x0c00
    ensures Meaning(h) == UP_8 ==> h == 0x0200
    ensures Meaning(h) == DOWN_8 ==> h == 0x0a00
  {
  }

  lemma AccessIsUnique(h: int)
    ensures Meaning(h) == LOAD ==> h == 0x6812
    ensures Meaning(h) == STORE ==> h == 0x7001
    ensures Meaning(h) == Return ==> h == 0x4770
    ensures Meaning(h) == LITERAL ==> h / 0x100 == 0x4a
  {
  }

  lemma BranchIsUnique(h: int, distance: nat)
    requires distance < 256 && distance % 2 == 0
    ensures Meaning(h) == BranchIf(HS, distance) ==> h == 0xd200 + distance / 2
  {
  }

  lemma NameIsUnique(h: int, found: int)
    requires Named(h).Some? && Meaning(found) == Named(h).value
    ensures found == h
  {
    ArithmeticIsUnique(found);
    ShiftIsUnique(found);
    AccessIsUnique(found);
    BranchIsUnique(found, 24);
    BranchIsUnique(found, 20);
    BranchIsUnique(found, 22);
    BranchIsUnique(found, 26);
  }

  lemma DenotedFits(data: seq<byte>, at: nat, entry: Option<int>)
    requires Denoted(entry).Some? && ProgramOf(data).op(at) == Denoted(entry).value
    ensures FitsOne(data, at, entry)
  {
    AccessIsUnique(Half(data, at));
    if entry.Some? {
      NameIsUnique(entry.value, Half(data, at));
    }
  }

  /** The halfwords fit a shape exactly when they are its code. */
  lemma FitsIffCode(data: seq<byte>, setter: nat, shape: Shape)
    ensures Fits(data, setter, shape) <==> CodeAt(ProgramOf(data), setter, Code(shape))
  {
    ShapesDenote(shape);
    if Fits(data, setter, shape) {
      GrammarIsCode(data, setter, shape);
    }
    if CodeAt(ProgramOf(data), setter, Code(shape)) {
      forall i | 0 <= i < |Grammar(shape)| ensures FitsOne(data, setter + 2 * i, Grammar(shape)[i]) {
        DenotedFits(data, setter + 2 * i, Grammar(shape)[i]);
      }
    }
  }

  /** The code of a shape, with the pool words of a contract. */
  ghost predicate Contracted(p: Program, c: Contract, offset: word) {
    && CodeAt(p, c.setter, Code(c.shape))
    && p.pool(c.setter + 4) == Some(offset) && c.offset == offset - (if Adjusts(c.shape) then 0x3c else 0)
    && p.pool(c.setter + FirstLoad(c.shape)) == Some(c.firstCell)
    && p.pool(c.setter + SecondLoad(c.shape)) == Some(c.secondCell)
  }

  /** The image holds the code that a contract describes, and the cells of the contract are two words of RAM. */
  ghost predicate Describes(data: seq<byte>, setter: nat, c: Contract) {
    && c.setter == setter && IsCell(c.firstCell) && IsCell(c.secondCell) && c.firstCell != c.secondCell
    && exists offset :: Contracted(ProgramOf(data), c, offset)
  }

  lemma ContractIff(data: seq<byte>, setter: nat, c: Contract)
    requires Fits(data, setter, c.shape)
    ensures ContractOf(data, setter, c.shape) == Some(c) <==> Describes(data, setter, c)
  {
    FitsIffCode(data, setter, c.shape);
    var p, offset := ProgramOf(data), Literal(data, setter + 4);
    if ContractOf(data, setter, c.shape) == Some(c) {
      assert Contracted(p, c, offset.value);
    }
  }

  /** The search for the shape, in the order of the list. */
  method SetterContract(data: seq<byte>, setter: nat) returns (contract: Option<Contract>)
    ensures forall c :: contract == Some(c) <==> Describes(data, setter, c)
  {
    var n := 0;
    while n < |SHAPES|
      invariant 0 <= n <= |SHAPES|
      invariant forall i :: 0 <= i < n ==> !Fits(data, setter, SHAPES[i])
    {
      if Fits(data, setter, SHAPES[n]) {
        forall shape | Fits(data, setter, shape) ensures shape == SHAPES[n] {
          ShapeIsUnique(data, setter, shape, SHAPES[n]);
        }
        forall c: Contract ensures ContractOf(data, setter, SHAPES[n]) == Some(c) <==> Describes(data, setter, c) {
          FitsIffCode(data, setter, c.shape);
          if c.shape == SHAPES[n] {
            ContractIff(data, setter, c);
          }
        }
        return ContractOf(data, setter, SHAPES[n]);
      }
      n := n + 1;
    }
    forall shape: Shape ensures !Fits(data, setter, shape) {
      assert shape == SHAPES[0] || shape == SHAPES[1] || shape == SHAPES[2] || shape == SHAPES[3];
    }
    forall c: Contract ensures !Describes(data, setter, c) {
      FitsIffCode(data, setter, c.shape);
    }
    contract := None;
  }

  lemma OpAt(p: Program, setter: nat, code: seq<Op>, i: nat)
    requires CodeAt(p, setter, code) && i < |code|
    ensures p.op(setter + 2 * i) == code[i]
  {
  }

  lemma CodeIsEntry(p: Program, setter: nat, shape: Shape)
    requires CodeAt(p, setter, Code(shape))
    ensures EntryOps(p, setter, shape)
  {
    OpAt(p, setter, Code(shape), 0);
    OpAt(p, setter, Code(shape), 1);
    OpAt(p, setter, Code(shape), |Code(shape)| - 1);
  }

  lemma CodeAddsOffset(p: Program, setter: nat, shape: Shape, offset: word)
    requires CodeAt(p, setter, Code(shape)) && p.pool(setter + 4) == Some(offset)
    ensures if Adjusts(shape) then AdjustedOffsetOps(p, setter + 4, offset) else OffsetOps(p, setter + 4, offset)
  {
    OpAt(p, setter, Code(shape), 2);
    OpAt(p, setter, Code(shape), 3);
    OpAt(p, setter, Code(shape), 4);
  }

  lemma CodeAddsFirst(p: Program, setter: nat, shape: Shape, first: word)
    requires CodeAt(p, setter, Code(shape)) && p.pool(setter + FirstLoad(shape)) == Some(first) && !Truncates(shape)
    ensures FirstOps(p, setter + FirstLoad(shape), first)
  {
    var i := FirstLoad(shape) / 2;
    OpAt(p, setter, Code(shape), i);
    OpAt(p, setter, Code(shape), i + 1);
    OpAt(p, setter, Code(shape), i + 2);
  }

  /** A part of the code, at its own place. */
  lemma PartAt(p: Program, setter: nat, code: seq<Op>, i: nat, part: seq<Op>)
    requires CodeAt(p, setter, code) && i + |part| <= |code| && code[i..i + |part|] == part
    ensures CodeAt(p, setter + 2 * i, part)
  {
    forall k | 0 <= k < |part| ensures p.op(setter + 2 * i + 2 * k) == part[k] {
      assert part[k] == code[i + k];
      OpAt(p, setter, code, i + k);
    }
  }

  const TRUNCATED_FIRST := [LITERAL, UP_16, LOAD, DOWN_16, ADD_CELL]

  lemma TruncatedFirstSlice(shape: Shape)
    requires Truncates(shape)
    ensures FirstLoad(shape) / 2 + 5 <= |Code(shape)| && FirstLoad(shape) % 2 == 0
    ensures Code(shape)[FirstLoad(shape) / 2..FirstLoad(shape) / 2 + 5] == TRUNCATED_FIRST
  {
    if shape.Common? {
      assert Code(Common)[4..9] == TRUNCATED_FIRST;
    } else {
      assert Code(AdjustedCommon)[5..10] == TRUNCATED_FIRST;
    }
  }

  lemma TruncatedFirstPartOps(p: Program, at: nat, first: word)
    requires CodeAt(p, at, TRUNCATED_FIRST) && p.pool(at) == Some(first)
    ensures TruncatedFirstOps(p, at, first)
  {
    OpAt(p, at, TRUNCATED_FIRST, 0);
    OpAt(p, at, TRUNCATED_FIRST, 1);
    OpAt(p, at, TRUNCATED_FIRST, 2);
    OpAt(p, at, TRUNCATED_FIRST, 3);
    OpAt(p, at, TRUNCATED_FIRST, 4);
  }

  lemma CodeAddsTruncatedFirst(p: Program, setter: nat, shape: Shape, first: word)
    requires CodeAt(p, setter, Code(shape)) && p.pool(setter + FirstLoad(shape)) == Some(first) && Truncates(shape)
    ensures TruncatedFirstOps(p, setter + FirstLoad(shape), first)
  {
    TruncatedFirstSlice(shape);
    PartAt(p, setter, Code(shape), FirstLoad(shape) / 2, TRUNCATED_FIRST);
    TruncatedFirstPartOps(p, setter + FirstLoad(shape), first);
  }

  const SECOND_PART := [LITERAL, UP_8, LOAD, DOWN_8, ADD_TO_INDEX, STORE]

  lemma SecondSlice(shape: Shape)
    ensures SecondLoad(shape) / 2 + 6 <= |Code(shape)| && SecondLoad(shape) % 2 == 0
    ensures Code(shape)[SecondLoad(shape) / 2..SecondLoad(shape) / 2 + 6] == SECOND_PART
  {
  }

  lemma SecondPartOps(p: Program, at: nat, second: word)
    requires CodeAt(p, at, SECOND_PART) && p.pool(at) == Some(second)
    ensures SecondOps(p, at, second)
  {
    OpAt(p, at, SECOND_PART, 0);
    OpAt(p, at, SECOND_PART, 1);
    OpAt(p, at, SECOND_PART, 2);
    OpAt(p, at, SECOND_PART, 3);
    OpAt(p, at, SECOND_PART, 4);
    OpAt(p, at, SECOND_PART, 5);
  }

  lemma CodeAddsSecond(p: Program, setter: nat, shape: Shape, second: word)
    requires CodeAt(p, setter, Code(shape)) && p.pool(setter + SecondLoad(shape)) == Some(second)
    ensures SecondOps(p, setter + SecondLoad(shape), second)
  {
    SecondSlice(shape);
    PartAt(p, setter, Code(shape), SecondLoad(shape) / 2, SECOND_PART);
    SecondPartOps(p, setter + SecondLoad(shape), second);
  }

  /**
   Executing recognised code, whatever the registers and the cells hold, returns
   after at most seventeen instructions with exactly the effect of the contract.
   */
  lemma RecognisedCodeHasContractEffect(data: seq<byte>, setter: nat, c: Contract, s: State) returns (s': State, n: nat)
    requires Describes(data, setter, c) && s.Valid()
    ensures n <= 17 && Execute(ProgramOf(data), setter, s, n) == Some(s') && Effect(c, s, s')
  {
    var offset :| Contracted(ProgramOf(data), c, offset);
    s', n := CodeHasContractEffect(ProgramOf(data), c, offset, s);
  }

  // The code between the bound check and the return: three parts, and what they add up to.

  lemma AddIndex(p: Program, c: Contract, offset: word, s: State) returns (s': State, n: nat)
    requires s.Valid() && Contracted(p, c, offset)
    ensures OnlyIndexChanged(s, s', Wrap(s.regs[0] + c.offset))
    ensures n <= 3 && Leads(p, c.setter + 4, s, n, c.setter + FirstLoad(c.shape), s')
  {
    CodeAddsOffset(p, c.setter, c.shape, offset);
    if Adjusts(c.shape) {
      s' := AddAdjustedOffset(p, c.setter + 4, s, offset);
      n := 3;
    } else {
      s' := AddOffset(p, c.setter + 4, s, offset);
      n := 2;
    }
  }

  /** The index as the first cell is added to it. */
  function Kept(shape: Shape, index: word): word {
    if Truncates(shape) then index % 0x1_0000 else index
  }

  lemma AddFirst(p: Program, c: Contract, offset: word, s: State) returns (s': State, n: nat)
    requires s.Valid() && Contracted(p, c, offset)
    ensures OnlyIndexChanged(s, s', Wrap(Kept(c.shape, s.regs[0]) + WordAt(s.memory, c.firstCell)))
    ensures n <= 5 && Leads(p, c.setter + FirstLoad(c.shape), s, n, c.setter + SecondLoad(c.shape), s')
  {
    var at := c.setter + FirstLoad(c.shape);
    if Truncates(c.shape) {
      CodeAddsTruncatedFirst(p, c.setter, c.shape, c.firstCell);
      s' := AddCellToLowBits(p, at, s, c.firstCell, 0x1_0000, 16, ADD_CELL);
      n := 5;
    } else {
      CodeAddsFirst(p, c.setter, c.shape, c.firstCell);
      s' := AddFirstCell(p, at, s, c.firstCell);
      n := 3;
    }
  }

  lemma AddSecondAndStore(p: Program, c: Contract, offset: word, s: State) returns (s': State, n: nat)
    requires s.Valid() && Contracted(p, c, offset)
    ensures StoredOneByte(s, s', Wrap(s.regs[0] % 0x100_0000 + WordAt(s.memory, c.secondCell)), s.regs[1] % 256)
    ensures n == 6 && Leads(p, c.setter + SecondLoad(c.shape), s, n, c.setter + Length(c.shape) - 2, s')
  {
    CodeAddsSecond(p, c.setter, c.shape, c.secondCell);
    s' := SecondPart(p, c.setter + SecondLoad(c.shape), c.secondCell, s);
    n := 6;
  }

  lemma ThreePaths(p: Program, pc0: nat, s0: State, n0: nat, pc1: nat, s1: State, n1: nat, pc2: nat, s2: State,
                   n2: nat, pc3: nat, s3: State)
    requires Leads(p, pc0, s0, n0, pc1, s1) && Leads(p, pc1, s1, n1, pc2, s2) && Leads(p, pc2, s2, n2, pc3, s3)
    ensures Leads(p, pc0, s0, n0 + n1 + n2, pc3, s3)
  {
    Then(p, pc0, s0, n0, pc1, s1, n1, pc2, s2);
    Then(p, pc0, s0, n0 + n1, pc2, s2, n2, pc3, s3);
  }

  /** From the bound check to the return, through the states behind the first two parts. */
  lemma Parts(p: Program, c: Contract, offset: word, s: State) returns (s1: State, s2: State, s': State, n: nat)
    requires s.Valid() && Contracted(p, c, offset)
    ensures OnlyIndexChanged(s, s1, Wrap(s.regs[0] + c.offset))
    ensures OnlyIndexChanged(s1, s2, Wrap(Kept(c.shape, s1.regs[0]) + WordAt(s1.memory, c.firstCell)))
    ensures StoredOneByte(s2, s', Wrap(s2.regs[0] % 0x100_0000 + WordAt(s2.memory, c.secondCell)), s2.regs[1] % 256)
    ensures n <= 14 && Leads(p, c.setter + 4, s, n, c.setter + Length(c.shape) - 2, s')
  {
    var n0, n1, n2;
    s1, n0 := AddIndex(p, c, offset, s);
    s2, n1 := AddFirst(p, c, offset, s1);
    s', n2 := AddSecondAndStore(p, c, offset, s2);
    ThreePaths(p, c.setter + 4, s, n0, c.setter + FirstLoad(c.shape), s1, n1, c.setter + SecondLoad(c.shape), s2,
               n2, c.setter + Length(c.shape) - 2, s');
    n := n0 + n1 + n2;
  }

  /** Where the body stores, started with this AGID. */
  function StoredAt(c: Contract, agid: word, memory: Memory): int {
    Wrap(Wrap(Kept(c.shape, Wrap(agid + c.offset)) + WordAt(memory, c.firstCell)) % 0x100_0000 +
         WordAt(memory, c.secondCell))
  }

  lemma PartsStore(c: Contract, s: State, s1: State, s2: State, s': State)
    requires s.Valid() && OnlyIndexChanged(s, s1, Wrap(s.regs[0] + c.offset))
    requires OnlyIndexChanged(s1, s2, Wrap(Kept(c.shape, s1.regs[0]) + WordAt(s1.memory, c.firstCell)))
    requires StoredOneByte(s2, s', Wrap(s2.regs[0] % 0x100_0000 + WordAt(s2.memory, c.secondCell)), s2.regs[1] % 256)
    ensures StoredOneByte(s, s', StoredAt(c, s.regs[0], s.memory), s.regs[1] % 256)
  {
    var at := Wrap(s2.regs[0] % 0x100_0000 + WordAt(s2.memory, c.secondCell));
    ScratchThenStore(s1, s2, s', s2.regs[0], at);
    ScratchThenStore(s, s1, s', s1.regs[0], at);
  }

  lemma StoredIsTheDestination(c: Contract, s: State, s0: State, s': State)
    requires s.Valid() && s0 == s.(flags := s0.flags) && s.regs[0] < 2
    requires StoredOneByte(s0, s', StoredAt(c, s0.regs[0], s0.memory), s0.regs[1] % 256)
    ensures Effect(c, s, s')
  {
    DestinationIsTheSum(c, s.regs[0], WordAt(s.memory, c.firstCell), WordAt(s.memory, c.secondCell));
  }

  /** The bound check passed, the body leads to the return. */
  lemma PastCheck(p: Program, c: Contract, s: State, s0: State, m: nat, s': State) returns (n: nat)
    requires EntryOps(p, c.setter, c.shape) && Leads(p, c.setter, s, 2, c.setter + 4, s0)
    requires Leads(p, c.setter + 4, s0, m, c.setter + Length(c.shape) - 2, s')
    ensures n == m + 3 && Execute(p, c.setter, s, n) == Some(s')
  {
    Then(p, c.setter, s, 2, c.setter + 4, s0, m, c.setter + Length(c.shape) - 2, s');
    Finish(p, c.setter, s, 2 + m, c.setter + Length(c.shape) - 2, s');
    n := 2 + m + 1;
  }

  lemma BelowBoundHasEffect(p: Program, c: Contract, offset: word, s: State) returns (s': State, n: nat)
    requires s.Valid() && Contracted(p, c, offset) && s.regs[0] < 2
    ensures n <= 17 && Execute(p, c.setter, s, n) == Some(s') && Effect(c, s, s')
  {
    CodeIsEntry(p, c.setter, c.shape);
    var s0 := BelowBound(p, c.setter, s, Length(c.shape) - 8);
    var s1, s2, m;
    s1, s2, s', m := Parts(p, c, offset, s0);
    n := PastCheck(p, c, s, s0, m, s');
    assert Effect(c, s, s') by {
      PartsStore(c, s0, s1, s2, s');
      StoredIsTheDestination(c, s, s0, s');
    }
  }

  /** The code of any shape, run to its return, has the effect its contract describes. */
  lemma CodeHasContractEffect(p: Program, c: Contract, offset: word, s: State) returns (s': State, n: nat)
    requires s.Valid() && Contracted(p, c, offset)
    ensures n <= 17 && Execute(p, c.setter, s, n) == Some(s') && Effect(c, s, s')
  {
    if s.regs[0] >= 2 {
      CodeIsEntry(p, c.setter, c.shape);
      s' := PastBoundHasEffect(p, c, s);
      n := 3;
    } else {
      s', n := BelowBoundHasEffect(p, c, offset, s);
    }
  }

  // ---------------------------------------------------------------- prediction

  /**
   The destination and first cell contents that the test prepares; None when the destination is
   outside mapped RAM.
   */
  function Inputs(c: Contract, agid: nat, first: word, second: word): Option<(int, word)> {
    var cell := Wrap(first - if Truncates(c.shape) then c.offset % 0x1_0000 else Wrap(c.offset));
    var value := if Truncates(c.shape) then (agid + c.offset) % 0x1_0000 else agid + c.offset;
    var destination := (value + cell) % 0x100_0000 + second;
    if RAM_LOW <= destination < RAM_HIGH then Some((destination, cell)) else None
  }

  lemma PredictedIsDestination(c: Contract, agid: nat, first: word, second: word)
    requires Inputs(c, agid, first, second).Some?
    ensures var (destination, cell) := Inputs(c, agid, first, second).value;
      Wrap(Destination(c, agid, cell, second)) == destination
  {
  }

  /**
   Whenever the test's inputs are accepted, the code stores the state byte at the predicted
   destination, or nothing.
   */
  lemma InputsPredictTheStore(c: Contract, agid: word, first: word, second: word, s: State, s': State)
    requires s.Valid() && Effect(c, s, s') && s.regs[0] == agid
    requires Inputs(c, agid, first, second).Some?
    requires WordAt(s.memory, c.firstCell) == Inputs(c, agid, first, second).value.1
    requires WordAt(s.memory, c.secondCell) == second
    ensures s'.stores == s.stores + if agid < 2 then [(Inputs(c, agid, first, second).value.0, s.regs[1] % 256)] else []
  {
    PredictedIsDestination(c, agid, first, second);
  }
}
