/** What the analyses use of the disassembler: one decoded instruction. */
module Disassembly {
  import opened Images

  datatype Condition = EQ | NE | HS | LO | MI | PL | VS | VC | HI | LS | GE | LT | GT | LE

  /**
   Mnemonics, told apart as far as any analysis looks at them. `OtherB` is every
   further name that starts with the letter b: calls, bit clears and so on.
   */
  datatype Mnemonic =
    | B | BWide | BCond(condition: Condition) | Bx | Bkpt | OtherB(name: string)
    | Cbz | Cbnz | Pop | Ldr | Udf | Svc | Other(name: string)

  predicate StartsWithB(m: Mnemonic) {
    m.B? || m.BWide? || m.BCond? || m.Bx? || m.Bkpt? || m.OtherB?
  }

  datatype Operand = Imm(value: int) | Reg(number: nat) | OtherOperand

  /** `mentionsPc` says that the operand text names the program counter. */
  datatype Insn = Insn(mnemonic: Mnemonic, bytes: seq<byte>, operands: seq<Operand>,
                       written: set<nat>, isCall: bool, isJump: bool, mentionsPc: bool)

  /** A window of at most four bytes and its address; None when no instruction decodes. */
  type Decoder = (seq<byte>, int) -> Option<Insn>

  function DecodeAt(decoder: Decoder, data: seq<byte>, pc: nat): Option<Insn> {
    decoder(Slice(data, pc, pc + 4), pc)
  }

  function Immediates(operands: seq<Operand>): (r: seq<int>) {
    if operands == [] then []
    else (if operands[0].Imm? then [operands[0].value] else []) + Immediates(operands[1..])
  }
}
