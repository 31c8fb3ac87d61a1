/**
 The template of the classic native address leaves (scripts/firmware_execution/classic_mapping_template.json):
 83 Thumb halfwords, the inverse leaf at offset 0 and the forward leaf at offset 0x40, the operations they
 stand for, and the binding problems that use this template with a disassembler that reads them so.
 */
module ClassicTemplate {
  import opened Images
  import opened Disassembly
  import opened Thumb
  import opened ClassicMapping
  import opened LeafSimulation

  // The template's RAM addresses: three layer ends, and a record whose third word is subtracted.
  const BOUNDARY0: word := 0x0200_0f4c
  const BOUNDARY1: word := 0x0200_0f50
  const BOUNDARY2: word := 0x0200_0f54
  const CACHE: word := 0x0200_0f84

  /** The words that the leaves load from RAM. */
  const CELLS: Cells := {(0x0200_0f4c, 0), (0x0200_0f50, 0), (0x0200_0f54, 0), (0x0200_0f84, 8)}

  predicate IsOffset(o: int) {
    0 <= o <= 164 && o % 2 == 0
  }

  function HalfAt(o: int): int {
    if o < 28 then Half0(o)
    else if o < 56 then Half1(o)
    else if o < 84 then Half2(o)
    else if o < 112 then Half3(o)
    else if o < 140 then Half4(o)
    else Half5(o)
  }

  function Half0(o: int): int {
    match o
    case 0 => 0x4ab1
    case 2 => 0x6811
    case 4 => 0x4288
    case 6 => 0xd91a
    case 8 => 0x6811
    case 10 => 0x1a40
    case 12 => 0x6811
    case 14 => 0x1e40
    case 16 => 0x4aae
    case 18 => 0x4bae
    case 20 => 0x1a51
    case 22 => 0x681a
    case 24 => 0x1a52
    case 26 => 0x1c52
    case _ => 0
  }

  function Half1(o: int): int {
    match o
    case 28 => 0x4290
    case 30 => 0xd30d
    case 32 => 0x6819
    case 34 => 0x1a80
    case 36 => 0x4aab
    case 38 => 0x4bab
    case 40 => 0x1a51
    case 42 => 0x681a
    case 44 => 0x1a52
    case 46 => 0x1c52
    case 48 => 0x4290
    case 50 => 0xd303
    case 52 => 0x6819
    case 54 => 0x1a80
    case _ => 0
  }

  function Half2(o: int): int {
    match o
    case 56 => 0x4aa8
    case 58 => 0x1a51
    case 60 => 0x1840
    case 62 => 0x4770
    case 64 => 0x4aa1
    case 66 => 0xb530
    case 68 => 0x6813
    case 70 => 0x1c5b
    case 72 => 0x49a5
    case 74 => 0x4298
    case 76 => 0xd925
    case 78 => 0x6813
    case 80 => 0x6889
    case 82 => 0x1a59
    case _ => 0
  }

  function Half3(o: int): int {
    match o
    case 84 => 0x4ba3
    case 86 => 0x4c9d
    case 88 => 0x18c9
    case 90 => 0x6823
    case 92 => 0x4d9b
    case 94 => 0x6812
    case 96 => 0x1c5b
    case 98 => 0x4298
    case 100 => 0xd918
    case 102 => 0x6823
    case 104 => 0x1aaa
    case 106 => 0x1a9a
    case 108 => 0x4b9a
    case 110 => 0x1851
    case _ => 0
  }

  function Half4(o: int): int {
    match o
    case 112 => 0x681a
    case 114 => 0x1c49
    case 116 => 0x1c52
    case 118 => 0x4290
    case 120 => 0x6822
    case 122 => 0x4d95
    case 124 => 0xd908
    case 126 => 0x681c
    case 128 => 0x1aaa
    case 130 => 0x1aa2
    case 132 => 0x1851
    case 134 => 0x681a
    case 136 => 0x1c49
    case 138 => 0x4b93
    case _ => 0
  }

  function Half5(o: int): int {
    match o
    case 140 => 0x1a9a
    case 142 => 0xe000
    case 144 => 0x1aaa
    case 146 => 0x1a80
    case 148 => 0x1840
    case 150 => 0xbd30
    case 152 => 0xe7fa
    case 154 => 0x6889
    case 156 => 0x1a40
    case 158 => 0x2101
    case 160 => 0x0509
    case 162 => 0x1a40
    case 164 => 0xbd30
    case _ => 0
  }

  /** The pool words, for the loads of one. */
  function LiteralAt(o: int): Option<word> {
    match o
    case 0 => Some(BOUNDARY0)
    case 16 => Some(0x03ff_ffff)
    case 18 => Some(BOUNDARY1)
    case 36 => Some(0x07ff_ffff)
    case 38 => Some(BOUNDARY2)
    case 56 => Some(0x0bff_ffff)
    case 64 => Some(BOUNDARY0)
    case 72 => Some(CACHE)
    case 84 => Some(0xfff0_0001)
    case 86 => Some(BOUNDARY1)
    case 92 => Some(0x03ff_ffff)
    case 108 => Some(BOUNDARY2)
    case 122 => Some(0x07ff_ffff)
    case 138 => Some(0x0bff_ffff)
    case _ => None
  }

  /** The operations, which the halfwords stand for. */
  function OpAt(o: int): Op {
    if o < 28 then Op0(o)
    else if o < 56 then Op1(o)
    else if o < 84 then Op2(o)
    else if o < 112 then Op3(o)
    else if o < 140 then Op4(o)
    else Op5(o)
  }

  function Op0(o: int): Op {
    match o
    case 0 => LoadLiteral(2)
    case 2 => LoadWord(1, 2, 0)
    case 4 => Alu(Subtract, None, Register(0), Register(1))
    case 6 => BranchIf(LS, 52)
    case 8 => LoadWord(1, 2, 0)
    case 10 => Alu(Subtract, Some(0), Register(0), Register(1))
    case 12 => LoadWord(1, 2, 0)
    case 14 => Alu(Subtract, Some(0), Register(0), Constant(1))
    case 16 => LoadLiteral(2)
    case 18 => LoadLiteral(3)
    case 20 => Alu(Subtract, Some(1), Register(2), Register(1))
    case 22 => LoadWord(2, 3, 0)
    case 24 => Alu(Subtract, Some(2), Register(2), Register(1))
    case 26 => Alu(Add, Some(2), Register(2), Constant(1))
    case _ => Unknown
  }

  function Op1(o: int): Op {
    match o
    case 28 => Alu(Subtract, None, Register(0), Register(2))
    case 30 => BranchIf(LO, 26)
    case 32 => LoadWord(1, 3, 0)
    case 34 => Alu(Subtract, Some(0), Register(0), Register(2))
    case 36 => LoadLiteral(2)
    case 38 => LoadLiteral(3)
    case 40 => Alu(Subtract, Some(1), Register(2), Register(1))
    case 42 => LoadWord(2, 3, 0)
    case 44 => Alu(Subtract, Some(2), Register(2), Register(1))
    case 46 => Alu(Add, Some(2), Register(2), Constant(1))
    case 48 => Alu(Subtract, None, Register(0), Register(2))
    case 50 => BranchIf(LO, 6)
    case 52 => LoadWord(1, 3, 0)
    case 54 => Alu(Subtract, Some(0), Register(0), Register(2))
    case _ => Unknown
  }

  function Op2(o: int): Op {
    match o
    case 56 => LoadLiteral(2)
    case 58 => Alu(Subtract, Some(1), Register(2), Register(1))
    case 60 => Alu(Add, Some(0), Register(0), Register(1))
    case 62 => Return
    case 64 => LoadLiteral(2)
    case 66 => Push(0x30, true)
    case 68 => LoadWord(3, 2, 0)
    case 70 => Alu(Add, Some(3), Register(3), Constant(1))
    case 72 => LoadLiteral(1)
    case 74 => Alu(Subtract, None, Register(0), Register(3))
    case 76 => BranchIf(LS, 74)
    case 78 => LoadWord(3, 2, 0)
    case 80 => LoadWord(1, 1, 8)
    case 82 => Alu(Subtract, Some(1), Register(3), Register(1))
    case _ => Unknown
  }

  function Op3(o: int): Op {
    match o
    case 84 => LoadLiteral(3)
    case 86 => LoadLiteral(4)
    case 88 => Alu(Add, Some(1), Register(1), Register(3))
    case 90 => LoadWord(3, 4, 0)
    case 92 => LoadLiteral(5)
    case 94 => LoadWord(2, 2, 0)
    case 96 => Alu(Add, Some(3), Register(3), Constant(1))
    case 98 => Alu(Subtract, None, Register(0), Register(3))
    case 100 => BranchIf(LS, 48)
    case 102 => LoadWord(3, 4, 0)
    case 104 => Alu(Subtract, Some(2), Register(5), Register(2))
    case 106 => Alu(Subtract, Some(2), Register(3), Register(2))
    case 108 => LoadLiteral(3)
    case 110 => Alu(Add, Some(1), Register(2), Register(1))
    case _ => Unknown
  }

  function Op4(o: int): Op {
    match o
    case 112 => LoadWord(2, 3, 0)
    case 114 => Alu(Add, Some(1), Register(1), Constant(1))
    case 116 => Alu(Add, Some(2), Register(2), Constant(1))
    case 118 => Alu(Subtract, None, Register(0), Register(2))
    case 120 => LoadWord(2, 4, 0)
    case 122 => LoadLiteral(5)
    case 124 => BranchIf(LS, 16)
    case 126 => LoadWord(4, 3, 0)
    case 128 => Alu(Subtract, Some(2), Register(5), Register(2))
    case 130 => Alu(Subtract, Some(2), Register(4), Register(2))
    case 132 => Alu(Add, Some(1), Register(2), Register(1))
    case 134 => LoadWord(2, 3, 0)
    case 136 => Alu(Add, Some(1), Register(1), Constant(1))
    case 138 => LoadLiteral(3)
    case _ => Unknown
  }

  function Op5(o: int): Op {
    match o
    case 140 => Alu(Subtract, Some(2), Register(3), Register(2))
    case 142 => Branch(0)
    case 144 => Alu(Subtract, Some(2), Register(5), Register(2))
    case 146 => Alu(Subtract, Some(0), Register(0), Register(2))
    case 148 => Alu(Add, Some(0), Register(0), Register(1))
    case 150 => Op.Pop(0x30, true)
    case 152 => Branch(-12)
    case 154 => LoadWord(1, 1, 8)
    case 156 => Alu(Subtract, Some(0), Register(0), Register(1))
    case 158 => Alu(Move, Some(1), Constant(0), Constant(1))
    case 160 => Alu(ShiftLeft, Some(1), Register(1), Constant(20))
    case 162 => Alu(Subtract, Some(0), Register(0), Register(1))
    case 164 => Op.Pop(0x30, true)
    case _ => Unknown
  }

  lemma Meant0(o: int)
    requires 0 <= o < 10 && o % 2 == 0
    ensures Meaning(HalfAt(o)) == OpAt(o)
  {
    match o
    case 0 => assert HalfAt(0) == 0x4ab1 && Meaning(0x4ab1) == OpAt(0);
    case 2 => assert HalfAt(2) == 0x6811 && Meaning(0x6811) == OpAt(2);
    case 4 => assert HalfAt(4) == 0x4288 && Meaning(0x4288) == OpAt(4);
    case 6 => assert HalfAt(6) == 0xd91a && Meaning(0xd91a) == OpAt(6);
    case 8 => assert HalfAt(8) == 0x6811 && Meaning(0x6811) == OpAt(8);
    case _ => assert false;
  }

  lemma Meant1(o: int)
    requires 10 <= o < 20 && o % 2 == 0
    ensures Meaning(HalfAt(o)) == OpAt(o)
  {
    match o
    case 10 => assert HalfAt(10) == 0x1a40 && Meaning(0x1a40) == OpAt(10);
    case 12 => assert HalfAt(12) == 0x6811 && Meaning(0x6811) == OpAt(12);
    case 14 => assert HalfAt(14) == 0x1e40 && Meaning(0x1e40) == OpAt(14);
    case 16 => assert HalfAt(16) == 0x4aae && Meaning(0x4aae) == OpAt(16);
    case 18 => assert HalfAt(18) == 0x4bae && Meaning(0x4bae) == OpAt(18);
    case _ => assert false;
  }

  lemma Meant2(o: int)
    requires 20 <= o < 30 && o % 2 == 0
    ensures Meaning(HalfAt(o)) == OpAt(o)
  {
    match o
    case 20 => assert HalfAt(20) == 0x1a51 && Meaning(0x1a51) == OpAt(20);
    case 22 => assert HalfAt(22) == 0x681a && Meaning(0x681a) == OpAt(22);
    case 24 => assert HalfAt(24) == 0x1a52 && Meaning(0x1a52) == OpAt(24);
    case 26 => assert HalfAt(26) == 0x1c52 && Meaning(0x1c52) == OpAt(26);
    case 28 => assert HalfAt(28) == 0x4290 && Meaning(0x4290) == OpAt(28);
    case _ => assert false;
  }

  lemma Meant3(o: int)
    requires 30 <= o < 40 && o % 2 == 0
    ensures Meaning(HalfAt(o)) == OpAt(o)
  {
    match o
    case 30 => assert HalfAt(30) == 0xd30d && Meaning(0xd30d) == OpAt(30);
    case 32 => assert HalfAt(32) == 0x6819 && Meaning(0x6819) == OpAt(32);
    case 34 => assert HalfAt(34) == 0x1a80 && Meaning(0x1a80) == OpAt(34);
    case 36 => assert HalfAt(36) == 0x4aab && Meaning(0x4aab) == OpAt(36);
    case 38 => assert HalfAt(38) == 0x4bab && Meaning(0x4bab) == OpAt(38);
    case _ => assert false;
  }

  lemma Meant4(o: int)
    requires 40 <= o < 50 && o % 2 == 0
    ensures Meaning(HalfAt(o)) == OpAt(o)
  {
    match o
    case 40 => assert HalfAt(40) == 0x1a51 && Meaning(0x1a51) == OpAt(40);
    case 42 => assert HalfAt(42) == 0x681a && Meaning(0x681a) == OpAt(42);
    case 44 => assert HalfAt(44) == 0x1a52 && Meaning(0x1a52) == OpAt(44);
    case 46 => assert HalfAt(46) == 0x1c52 && Meaning(0x1c52) == OpAt(46);
    case 48 => assert HalfAt(48) == 0x4290 && Meaning(0x4290) == OpAt(48);
    case _ => assert false;
  }

  lemma Meant5(o: int)
    requires 50 <= o < 60 && o % 2 == 0
    ensures Meaning(HalfAt(o)) == OpAt(o)
  {
    match o
    case 50 => assert HalfAt(50) == 0xd303 && Meaning(0xd303) == OpAt(50);
    case 52 => assert HalfAt(52) == 0x6819 && Meaning(0x6819) == OpAt(52);
    case 54 => assert HalfAt(54) == 0x1a80 && Meaning(0x1a80) == OpAt(54);
    case 56 => assert HalfAt(56) == 0x4aa8 && Meaning(0x4aa8) == OpAt(56);
    case 58 => assert HalfAt(58) == 0x1a51 && Meaning(0x1a51) == OpAt(58);
    case _ => assert false;
  }

  lemma Meant6(o: int)
    requires 60 <= o < 70 && o % 2 == 0
    ensures Meaning(HalfAt(o)) == OpAt(o)
  {
    match o
    case 60 => assert HalfAt(60) == 0x1840 && Meaning(0x1840) == OpAt(60);
    case 62 => assert HalfAt(62) == 0x4770 && Meaning(0x4770) == OpAt(62);
    case 64 => assert HalfAt(64) == 0x4aa1 && Meaning(0x4aa1) == OpAt(64);
    case 66 => assert HalfAt(66) == 0xb530 && Meaning(0xb530) == OpAt(66);
    case 68 => assert HalfAt(68) == 0x6813 && Meaning(0x6813) == OpAt(68);
    case _ => assert false;
  }

  lemma Meant7(o: int)
    requires 70 <= o < 80 && o % 2 == 0
    ensures Meaning(HalfAt(o)) == OpAt(o)
  {
    match o
    case 70 => assert HalfAt(70) == 0x1c5b && Meaning(0x1c5b) == OpAt(70);
    case 72 => assert HalfAt(72) == 0x49a5 && Meaning(0x49a5) == OpAt(72);
    case 74 => assert HalfAt(74) == 0x4298 && Meaning(0x4298) == OpAt(74);
    case 76 => assert HalfAt(76) == 0xd925 && Meaning(0xd925) == OpAt(76);
    case 78 => assert HalfAt(78) == 0x6813 && Meaning(0x6813) == OpAt(78);
    case _ => assert false;
  }

  lemma Meant8(o: int)
    requires 80 <= o < 90 && o % 2 == 0
    ensures Meaning(HalfAt(o)) == OpAt(o)
  {
    match o
    case 80 => assert HalfAt(80) == 0x6889 && Meaning(0x6889) == OpAt(80);
    case 82 => assert HalfAt(82) == 0x1a59 && Meaning(0x1a59) == OpAt(82);
    case 84 => assert HalfAt(84) == 0x4ba3 && Meaning(0x4ba3) == OpAt(84);
    case 86 => assert HalfAt(86) == 0x4c9d && Meaning(0x4c9d) == OpAt(86);
    case 88 => assert HalfAt(88) == 0x18c9 && Meaning(0x18c9) == OpAt(88);
    case _ => assert false;
  }

  lemma Meant9(o: int)
    requires 90 <= o < 100 && o % 2 == 0
    ensures Meaning(HalfAt(o)) == OpAt(o)
  {
    match o
    case 90 => assert HalfAt(90) == 0x6823 && Meaning(0x6823) == OpAt(90);
    case 92 => assert HalfAt(92) == 0x4d9b && Meaning(0x4d9b) == OpAt(92);
    case 94 => assert HalfAt(94) == 0x6812 && Meaning(0x6812) == OpAt(94);
    case 96 => assert HalfAt(96) == 0x1c5b && Meaning(0x1c5b) == OpAt(96);
    case 98 => assert HalfAt(98) == 0x4298 && Meaning(0x4298) == OpAt(98);
    case _ => assert false;
  }

  lemma Meant10(o: int)
    requires 100 <= o < 110 && o % 2 == 0
    ensures Meaning(HalfAt(o)) == OpAt(o)
  {
    match o
    case 100 => assert HalfAt(100) == 0xd918 && Meaning(0xd918) == OpAt(100);
    case 102 => assert HalfAt(102) == 0x6823 && Meaning(0x6823) == OpAt(102);
    case 104 => assert HalfAt(104) == 0x1aaa && Meaning(0x1aaa) == OpAt(104);
    case 106 => assert HalfAt(106) == 0x1a9a && Meaning(0x1a9a) == OpAt(106);
    case 108 => assert HalfAt(108) == 0x4b9a && Meaning(0x4b9a) == OpAt(108);
    case _ => assert false;
  }

  lemma Meant11(o: int)
    requires 110 <= o < 120 && o % 2 == 0
    ensures Meaning(HalfAt(o)) == OpAt(o)
  {
    match o
    case 110 => assert HalfAt(110) == 0x1851 && Meaning(0x1851) == OpAt(110);
    case 112 => assert HalfAt(112) == 0x681a && Meaning(0x681a) == OpAt(112);
    case 114 => assert HalfAt(114) == 0x1c49 && Meaning(0x1c49) == OpAt(114);
    case 116 => assert HalfAt(116) == 0x1c52 && Meaning(0x1c52) == OpAt(116);
    case 118 => assert HalfAt(118) == 0x4290 && Meaning(0x4290) == OpAt(118);
    case _ => assert false;
  }

  lemma Meant12(o: int)
    requires 120 <= o < 130 && o % 2 == 0
    ensures Meaning(HalfAt(o)) == OpAt(o)
  {
    match o
    case 120 => assert HalfAt(120) == 0x6822 && Meaning(0x6822) == OpAt(120);
    case 122 => assert HalfAt(122) == 0x4d95 && Meaning(0x4d95) == OpAt(122);
    case 124 => assert HalfAt(124) == 0xd908 && Meaning(0xd908) == OpAt(124);
    case 126 => assert HalfAt(126) == 0x681c && Meaning(0x681c) == OpAt(126);
    case 128 => assert HalfAt(128) == 0x1aaa && Meaning(0x1aaa) == OpAt(128);
    case _ => assert false;
  }

  lemma Meant13(o: int)
    requires 130 <= o < 140 && o % 2 == 0
    ensures Meaning(HalfAt(o)) == OpAt(o)
  {
    match o
    case 130 => assert HalfAt(130) == 0x1aa2 && Meaning(0x1aa2) == OpAt(130);
    case 132 => assert HalfAt(132) == 0x1851 && Meaning(0x1851) == OpAt(132);
    case 134 => assert HalfAt(134) == 0x681a && Meaning(0x681a) == OpAt(134);
    case 136 => assert HalfAt(136) == 0x1c49 && Meaning(0x1c49) == OpAt(136);
    case 138 => assert HalfAt(138) == 0x4b93 && Meaning(0x4b93) == OpAt(138);
    case _ => assert false;
  }

  lemma Meant14(o: int)
    requires 140 <= o < 150 && o % 2 == 0
    ensures Meaning(HalfAt(o)) == OpAt(o)
  {
    match o
    case 140 => assert HalfAt(140) == 0x1a9a && Meaning(0x1a9a) == OpAt(140);
    case 142 => assert HalfAt(142) == 0xe000 && Meaning(0xe000) == OpAt(142);
    case 144 => assert HalfAt(144) == 0x1aaa && Meaning(0x1aaa) == OpAt(144);
    case 146 => assert HalfAt(146) == 0x1a80 && Meaning(0x1a80) == OpAt(146);
    case 148 => assert HalfAt(148) == 0x1840 && Meaning(0x1840) == OpAt(148);
    case _ => assert false;
  }

  lemma Meant15(o: int)
    requires 150 <= o < 160 && o % 2 == 0
    ensures Meaning(HalfAt(o)) == OpAt(o)
  {
    match o
    case 150 => assert HalfAt(150) == 0xbd30 && Meaning(0xbd30) == OpAt(150);
    case 152 => assert HalfAt(152) == 0xe7fa && Meaning(0xe7fa) == OpAt(152);
    case 154 => assert HalfAt(154) == 0x6889 && Meaning(0x6889) == OpAt(154);
    case 156 => assert HalfAt(156) == 0x1a40 && Meaning(0x1a40) == OpAt(156);
    case 158 => assert HalfAt(158) == 0x2101 && Meaning(0x2101) == OpAt(158);
    case _ => assert false;
  }

  lemma Meant16(o: int)
    requires 160 <= o < 166 && o % 2 == 0
    ensures Meaning(HalfAt(o)) == OpAt(o)
  {
    match o
    case 160 => assert HalfAt(160) == 0x0509 && Meaning(0x0509) == OpAt(160);
    case 162 => assert HalfAt(162) == 0x1a40 && Meaning(0x1a40) == OpAt(162);
    case 164 => assert HalfAt(164) == 0xbd30 && Meaning(0xbd30) == OpAt(164);
    case _ => assert false;
  }

  lemma OpsAreMeant(o: int)
    requires IsOffset(o)
    ensures Meaning(HalfAt(o)) == OpAt(o)
  {
    match o / 10
    case 0 => Meant0(o);
    case 1 => Meant1(o);
    case 2 => Meant2(o);
    case 3 => Meant3(o);
    case 4 => Meant4(o);
    case 5 => Meant5(o);
    case 6 => Meant6(o);
    case 7 => Meant7(o);
    case 8 => Meant8(o);
    case 9 => Meant9(o);
    case 10 => Meant10(o);
    case 11 => Meant11(o);
    case 12 => Meant12(o);
    case 13 => Meant13(o);
    case 14 => Meant14(o);
    case 15 => Meant15(o);
    case _ => Meant16(o);
  }

  /** A disassembler that reads the modelled halfwords as section A7.1 defines them. */
  ghost predicate Exact(decoder: Decoder) {
    && Honest(decoder)
    && forall h, pc {:trigger decoder(HalfBytes(h), pc)} :: 0 <= h < 0x1_0000 && !Meaning(h).Unknown? ==>
         decoder(HalfBytes(h), pc).Some? && Reads(HalfBytes(h), Meaning(h), pc, decoder(HalfBytes(h), pc).value)
  }

  predicate Reads(bytes: seq<byte>, op: Op, pc: int, i: Insn) {
    && i.bytes == bytes
    && match op
       case BranchIf(c, distance) => i.mnemonic == BCond(c) && i.operands == [Imm(pc + 4 + distance)]
       case Branch(distance) => i.mnemonic.B? && i.operands == [Imm(pc + 4 + distance)]
       case Return => i.mnemonic.Bx?
       case Pop(_, pcToo) => i.mnemonic.Pop? && i.mentionsPc == pcToo
       case _ => !StartsWithB(i.mnemonic) && !i.mnemonic.Pop?
  }

  /** A binding problem with this template. */
  ghost predicate Native(p: Problem) {
    && Exact(p.decoder)
    && (forall o :: o in p.items <==> IsOffset(o))
    && forall o :: o in p.items ==> p.items[o] == Item(HalfBytes(HalfAt(o)), LiteralAt(o))
  }

  /** The node says what the operation says. */
  predicate Presents(n: Node, o: int, op: Op, literal: Option<word>) {
    && OpOf(n.insn.bytes) == op && n.pool == literal && |n.insn.bytes| == 2
    && (op.Return? ==> n.insn.mnemonic.Bx?)
    && (op.BranchIf? ==> n.insn.mnemonic == BCond(op.condition) && n.target == Some(o + 4 + op.distance))
    && (op.Branch? ==> n.insn.mnemonic.B? && n.target == Some(o + 4 + op.distance))
    && (op.Pop? ==> Returns(n.insn) == op.pcToo && !Branches(n.insn) && !n.insn.mnemonic.Bx?)
    && (Plain(op) ==> !StartsWithB(n.insn.mnemonic) && !n.insn.mnemonic.Pop?)
  }

  lemma ReadIsPresented(entry: int, o: int, h: int, op: Op, literal: Option<word>, i: Insn)
    requires 0 <= h < 0x1_0000 && Meaning(h) == op && Reads(HalfBytes(h), op, entry + o, i)
    ensures Presents(Node(i, literal, if Target(i).Some? then Some(Target(i).value - entry) else None), o, op, literal)
  {
  }

  lemma NodeOf(p: Problem, o: int, h: int, op: Op)
    requires Exact(p.decoder) && o in p.items && 0 <= h < 0x1_0000 && Meaning(h) == op && !op.Unknown?
    requires p.items[o].bytes == HalfBytes(h)
    ensures TemplateNode(p, o).Some? && Presents(TemplateNode(p, o).value, o, op, p.items[o].literal)
  {
    var i := p.decoder(HalfBytes(h), p.entry + o);
    ReadIsPresented(p.entry, o, h, op, p.items[o].literal, i.value);
  }

  lemma NodeAt(p: Problem, o: nat)
    requires Native(p) && IsOffset(o) && !OpAt(o).Unknown?
    ensures TemplateNode(p, o).Some? && Presents(TemplateNode(p, o).value, o, OpAt(o), LiteralAt(o))
  {
    OpsAreMeant(o);
    assert o in p.items;
    NodeOf(p, o, HalfAt(o), OpAt(o));
  }

  predicate Plain(op: Op) {
    op.LoadLiteral? || op.LoadWord? || op.Alu? || op.Push?
  }
}
