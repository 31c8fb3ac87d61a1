/**
 A disassembler of the modelled halfwords. The theorems about the classic leaves hold for every
 exact disassembler; this one shows that there are such.
 */
module ThumbDecoder {
  import opened Images
  import opened Disassembly
  import opened Thumb
  import opened LeafSimulation
  import opened ClassicTemplate

  function MnemonicOf(op: Op): Mnemonic {
    match op
    case LoadLiteral(_) => Ldr
    case BranchIf(condition, _) => BCond(condition)
    case Branch(_) => B
    case Return => Bx
    case Pop(_, _) => Mnemonic.Pop
    case _ => Other("plain")
  }

  function OperandsOf(op: Op, pc: int): seq<Operand> {
    match op
    case BranchIf(_, distance) => [Imm(pc + 4 + distance)]
    case Branch(distance) => [Imm(pc + 4 + distance)]
    case _ => []
  }

  /** The two halfwords of a call. */
  predicate IsCallPair(window: seq<byte>) {
    |window| >= 4 && Half(window, 0) / 0x800 == 0x1e && Half(window, 2) / 0x800 == 0x1f
  }

  function CallDistance(window: seq<byte>): int {
    SignExtend(Half(window, 0) % 0x800, 0x400) * 0x1000 + Half(window, 2) % 0x800 * 2
  }

  function Decode(window: seq<byte>, pc: int): Option<Insn> {
    if IsCallPair(window) then
      Some(Insn(OtherB("bl"), window[..4], [Imm(pc + 4 + CallDistance(window))], {}, true, false, false))
    else if |window| < 2 || OpOf(window[..2]).Unknown? then None
    else
      var op := OpOf(window[..2]);
      Some(Insn(MnemonicOf(op), window[..2], OperandsOf(op, pc), {}, false, op.BranchIf? || op.Branch? || op.Return?,
                op.Pop? && op.pcToo))
  }

  lemma DecodesHonestly(window: seq<byte>, pc: int)
    requires Decode(window, pc).Some?
    ensures HonestAbout(window, Decode(window, pc).value)
  {
    if !IsCallPair(window) {
      var h := window[0] as int + 0x100 * window[1] as int;
      assert OpOf(window[..2]) == Meaning(h);
      if h / 0x800 == 9 {
        LiteralLoads(h);
      }
    }
  }

  lemma LiteralLoads(h: int)
    requires h / 0x800 == 9
    ensures Meaning(h).LoadLiteral?
  {
  }

  lemma DecodesExactly(h: int, pc: int)
    requires 0 <= h < 0x1_0000 && !Meaning(h).Unknown?
    ensures Decode(HalfBytes(h), pc).Some? && Reads(HalfBytes(h), Meaning(h), pc, Decode(HalfBytes(h), pc).value)
  {
    assert HalfBytes(h)[..2] == HalfBytes(h);
    assert OpOf(HalfBytes(h)) == Meaning(h);
  }

  lemma DecodeIsExact()
    ensures Exact(Decode)
  {
    forall window, pc | Decode(window, pc).Some? ensures HonestAbout(window, Decode(window, pc).value) {
      DecodesHonestly(window, pc);
    }
    forall h, pc {:trigger Decode(HalfBytes(h), pc)} | 0 <= h < 0x1_0000 && !Meaning(h).Unknown?
      ensures Decode(HalfBytes(h), pc).Some? && Reads(HalfBytes(h), Meaning(h), pc, Decode(HalfBytes(h), pc).value)
    {
      DecodesExactly(h, pc);
    }
  }
}
