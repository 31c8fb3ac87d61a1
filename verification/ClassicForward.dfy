/**
 What the forward leaf of the classic template computes: the way back, less a recorded offset. The leaf saves
 r4 and r5, sums up for each layer in turn the sectors before it, and compares the address with the end of the
 layer; the layers share the code at offset 144, which subtracts the base of the layer and adds the sum. The
 32-bit sums are kept as the code makes them; `ClassicBinding` shows that they undo the address map.
 */
module ClassicForward {
  import opened Images
  import opened Thumb
  import opened AddressMap
  import opened LeafSimulation
  import opened ClassicTemplate
  import opened ClassicWalk
  import opened ClassicInverse

  const R1_R2: Tags := map[2 := BOUNDARY0, 1 := CACHE]
  const R2_R4: Tags := map[2 := BOUNDARY0, 4 := BOUNDARY1]
  const R4_B1: Tags := map[4 := BOUNDARY1]
  const R3_R4: Tags := map[4 := BOUNDARY1, 3 := BOUNDARY2]

  /** The third word of the record: what the forward leaf subtracts. */
  function Skipped(view: View): word
    requires view.Keys == CELLS
  {
    view[(CACHE as int, 8)]
  }

  /** Inside the forward leaf, with r4 and r5 of its caller on the stack. */
  function Inside(pc: nat, regs: seq<word>, tags: Tags, flags: Option<Flags>, start: seq<word>): Walker
    requires |start| == 8
  {
    Walker(pc, regs, tags, flags, Some((start[4], start[5])), false)
  }

  /** Between the save and the restore: r6 and r7 are as on entry. */
  predicate Kept(start: seq<word>, regs: seq<word>) {
    |start| == |regs| == 8 && regs[6] == start[6] && regs[7] == start[7]
  }

  // ---------------------------------------------------------------- the ends of the paths

  /** The pop restores what the push saved. */
  lemma Leave(view: View, pc: nat, regs: seq<word>, tags: Tags, flags: Option<Flags>, start: seq<word>) returns (n: nat)
    requires (pc == 150 || pc == 164) && Kept(start, regs) && forall r :: r in tags ==> 1 <= r <= 5
    ensures Gives(view, Inside(pc, regs, tags, flags, start), n, start, regs[0])
  {
    var end := regs[4 := start[4]][5 := start[5]];
    assert Walks(view, Inside(pc, regs, tags, flags, start), 1) ==
           Some(Walker(pc, end, tags - {4, 5}, flags, None, true));
    forall r: nat | 4 <= r < 8 ensures end[r] == start[r] {
      assert r == 4 || r == 5 || r == 6 || r == 7;
    }
    n := 1;
  }

  lemma ShiftedOne()
    ensures Result(ShiftLeft, 1, 20) == 0x10_0000
  {
    assert Power(8) == 256 && Power(16) == 65536;
    assert Power(20) == 16 * Power(16);
  }

  /** Offsets 154 and 156: less the offset. */
  lemma AddressLessOffset(view: View, regs: seq<word>, flags: Option<Flags>, start: seq<word>)
    returns (n: nat, regs': seq<word>)
    requires view.Keys == CELLS && Kept(start, regs)
    ensures Kept(start, regs') && regs'[0] == Wrap(regs[0] as int - Skipped(view))
    ensures Walks(view, Inside(154, regs, R1_R2, flags, start), n) == Some(Inside(158, regs', R2_B0, None, start))
  {
    regs' := regs[1 := Skipped(view)][0 := Wrap(regs[0] as int - Skipped(view))];
    assert R1_R2 - {1} == R2_B0;
    assert Walks(view, Inside(154, regs, R1_R2, flags, start), 2) == Some(Inside(158, regs', R2_B0, None, start));
    n := 2;
  }

  /** Offsets 158 and 160: the first physical sector. */
  lemma FirstPhysical(view: View, regs: seq<word>, start: seq<word>) returns (n: nat, regs': seq<word>)
    requires Kept(start, regs)
    ensures Kept(start, regs') && regs' == regs[1 := 0x10_0000]
    ensures Walks(view, Inside(158, regs, R2_B0, None, start), n) == Some(Inside(162, regs', R2_B0, None, start))
  {
    regs' := regs[1 := 0x10_0000];
    var one := Inside(160, regs[1 := 1], R2_B0, None, start);
    assert Walk(view, Inside(158, regs, R2_B0, None, start)) == Some(one);
    assert Walk(view, one) == Some(Inside(162, regs', R2_B0, None, start)) by {
      ShiftedOne();
      assert regs[1 := 1][1 := 0x10_0000] == regs';
    }
    WalkTwice(view, Inside(158, regs, R2_B0, None, start), one, Inside(162, regs', R2_B0, None, start));
    n := 2;
  }

  /** Offsets 162 and 164: less the first physical sector. */
  lemma LessPhysical(view: View, regs: seq<word>, start: seq<word>) returns (n: nat)
    requires Kept(start, regs)
    ensures Gives(view, Inside(162, regs, R2_B0, None, start), n, start, Wrap(regs[0] as int - regs[1]))
  {
    var regs' := regs[0 := Wrap(regs[0] as int - regs[1])];
    assert Walks(view, Inside(162, regs, R2_B0, None, start), 1) == Some(Inside(164, regs', R2_B0, None, start));
    var m := Leave(view, 164, regs', R2_B0, None, start);
    n := 1 + m;
    GivesOn(view, Inside(162, regs, R2_B0, None, start), 1, Inside(164, regs', R2_B0, None, start), m, start, regs'[0]);
  }

  /** From offset 154: the first layer. */
  lemma FinishFirst(view: View, regs: seq<word>, flags: Option<Flags>, start: seq<word>) returns (n: nat)
    requires view.Keys == CELLS && Kept(start, regs)
    ensures Gives(view, Inside(154, regs, R1_R2, flags, start), n, start,
                  Wrap(Wrap(regs[0] as int - Skipped(view)) as int - 0x10_0000))
  {
    var w := Inside(154, regs, R1_R2, flags, start);
    var k1, regs1 := AddressLessOffset(view, regs, flags, start);
    var k2, regs2 := FirstPhysical(view, regs1, start);
    var m := LessPhysical(view, regs2, start);
    WalkOn(view, w, k1, Inside(158, regs1, R2_B0, None, start), k2, Inside(162, regs2, R2_B0, None, start));
    n := k1 + k2 + m;
    GivesOn(view, w, k1 + k2, Inside(162, regs2, R2_B0, None, start), m, start, Wrap(regs2[0] as int - regs2[1]));
  }

  predicate HighTags(tags: Tags) {
    forall r :: r in tags ==> 3 <= r <= 4
  }

  /** Offsets 146 to 150: from the base of the layer, plus the sum. */
  lemma FromBase(view: View, regs: seq<word>, tags: Tags, flags: Option<Flags>, start: seq<word>) returns (n: nat)
    requires Kept(start, regs) && HighTags(tags)
    ensures Gives(view, Inside(146, regs, tags, flags, start), n, start, Wrap(regs[0] as int - regs[2] + regs[1]))
  {
    var result := Wrap(regs[0] as int - regs[2] + regs[1]);
    var regs' := regs[0 := Wrap(regs[0] as int - regs[2])][0 := result];
    WrapAgain(regs[0] as int - regs[2], regs[1] as int);
    var w, w2 := Inside(146, regs, tags, flags, start), Inside(150, regs', tags, None, start);
    var w1 := Inside(148, regs[0 := Wrap(regs[0] as int - regs[2])], tags, None, start);
    assert Walk(view, w) == Some(w1) && Walk(view, w1) == Some(w2);
    WalkTwice(view, w, w1, w2);
    var m := Leave(view, 150, regs', tags, None, start);
    n := 2 + m;
    GivesOn(view, w, 2, w2, m, start, result);
  }

  /** Offset 144: the base of the layer, from its mirror point. */
  lemma FromMirror(view: View, regs: seq<word>, tags: Tags, flags: Option<Flags>, start: seq<word>) returns (n: nat)
    requires Kept(start, regs) && HighTags(tags)
    ensures Gives(view, Inside(144, regs, tags, flags, start), n, start,
                  Wrap(regs[0] as int - Wrap(regs[5] as int - regs[2]) + regs[1]))
  {
    var regs' := regs[2 := Wrap(regs[5] as int - regs[2])];
    assert Walks(view, Inside(144, regs, tags, flags, start), 1) == Some(Inside(146, regs', tags, None, start));
    var m := FromBase(view, regs', tags, None, start);
    n := 1 + m;
    GivesOn(view, Inside(144, regs, tags, flags, start), 1, Inside(146, regs', tags, None, start), m, start,
            Wrap(regs'[0] as int - regs'[2] + regs'[1]));
  }

  /** Offset 152. */
  lemma ToMirror(view: View, regs: seq<word>, tags: Tags, flags: Option<Flags>, start: seq<word>) returns (n: nat)
    requires Kept(start, regs) && HighTags(tags)
    ensures Gives(view, Inside(152, regs, tags, flags, start), n, start,
                  Wrap(regs[0] as int - Wrap(regs[5] as int - regs[2]) + regs[1]))
  {
    assert Walks(view, Inside(152, regs, tags, flags, start), 1) == Some(Inside(144, regs, tags, flags, start));
    var m := FromMirror(view, regs, tags, flags, start);
    n := 1 + m;
    GivesOn(view, Inside(152, regs, tags, flags, start), 1, Inside(144, regs, tags, flags, start), m, start,
            Wrap(regs[0] as int - Wrap(regs[5] as int - regs[2]) + regs[1]));
  }

  // ---------------------------------------------------------------- the blocks of the layers

  /** Offsets 64 to 70: save registers; one past the first end. */
  lemma Enter(view: View, regs: seq<word>) returns (n: nat, regs': seq<word>)
    requires view.Keys == CELLS && |regs| == 8
    ensures Kept(regs, regs') && regs'[0] == regs[0] && regs'[2] == BOUNDARY0
    ensures regs'[3] == Wrap(EndsOf(view).e0 as int + 1)
    ensures Walks(view, Entry(64, regs), n) == Some(Inside(72, regs', R2_B0, None, regs))
  {
    var e0 := EndsOf(view).e0;
    regs' := regs[2 := BOUNDARY0][3 := e0][3 := Wrap(e0 as int + 1)];
    assert Walks(view, Entry(64, regs), 4) == Some(Inside(72, regs', R2_B0, None, regs));
    n := 4;
  }

  /** Offsets 72 to 76: is the address in the first layer, or right behind it? */
  lemma InFirst(view: View, regs: seq<word>, start: seq<word>) returns (n: nat, regs': seq<word>)
    requires Kept(start, regs)
    ensures Kept(start, regs') && regs' == regs[1 := CACHE]
    ensures Walks(view, Inside(72, regs, R2_B0, None, start), n) ==
            Some(Inside(if regs[0] <= regs[3] then 154 else 78, regs', R1_R2, Compared(regs[0], regs[3]), start))
  {
    regs' := regs[1 := CACHE];
    assert R2_B0[1 := CACHE] == R1_R2;
    var flags := Compared(regs[0], regs[3]);
    var w, w1 := Inside(72, regs, R2_B0, None, start), Inside(74, regs', R1_R2, None, start);
    var w2 := Inside(76, regs', R1_R2, flags, start);
    var w3 := Inside(if regs[0] <= regs[3] then 154 else 78, regs', R1_R2, flags, start);
    assert Walk(view, w) == Some(w1) && Walk(view, w1) == Some(w2) && Walk(view, w2) == Some(w3);
    WalkThrice(view, w, w1, w2, w3);
    n := 3;
  }

  /** Offsets 78 to 82: the first end less the offset. */
  lemma LessOffset(view: View, regs: seq<word>, flags: Option<Flags>, start: seq<word>)
    returns (n: nat, regs': seq<word>)
    requires view.Keys == CELLS && Kept(start, regs)
    ensures Kept(start, regs') && regs'[0] == regs[0] && regs'[2] == regs[2]
    ensures regs'[1] == Wrap(EndsOf(view).e0 as int - Skipped(view))
    ensures Walks(view, Inside(78, regs, R1_R2, flags, start), n) == Some(Inside(84, regs', R2_B0, None, start))
  {
    var e0, k := EndsOf(view).e0, Skipped(view);
    regs' := regs[3 := e0][1 := k][1 := Wrap(e0 as int - k)];
    assert R1_R2 - {1} == R2_B0;
    assert Walks(view, Inside(78, regs, R1_R2, flags, start), 3) == Some(Inside(84, regs', R2_B0, None, start));
    n := 3;
  }

  /** Offsets 84 to 88: less the first physical sector, and one more. */
  lemma LessFirst(view: View, regs: seq<word>, start: seq<word>) returns (n: nat, regs': seq<word>)
    requires Kept(start, regs)
    ensures Kept(start, regs') && regs'[0] == regs[0] && regs'[2] == regs[2]
    ensures regs'[1] == Wrap(regs[1] as int - 0xf_ffff)
    ensures Walks(view, Inside(84, regs, R2_B0, None, start), n) == Some(Inside(90, regs', R2_R4, None, start))
  {
    regs' := regs[3 := 0xfff0_0001][4 := BOUNDARY1][1 := Wrap(regs[1] as int + 0xfff0_0001)];
    assert R2_B0[4 := BOUNDARY1] == R2_R4;
    assert Walks(view, Inside(84, regs, R2_B0, None, start), 3) == Some(Inside(90, regs', R2_R4, None, start));
    n := 3;
  }

  /** Offsets 90 to 94: both ends and the mirror point. */
  lemma SecondCells(view: View, regs: seq<word>, start: seq<word>) returns (n: nat, regs': seq<word>)
    requires view.Keys == CELLS && Kept(start, regs)
    ensures Kept(start, regs')
    ensures regs' == regs[3 := EndsOf(view).e1][5 := 0x03ff_ffff][2 := EndsOf(view).e0]
    ensures Walks(view, Inside(90, regs, R2_R4, None, start), n) == Some(Inside(96, regs', R4_B1, None, start))
  {
    regs' := regs[3 := EndsOf(view).e1][5 := 0x03ff_ffff][2 := EndsOf(view).e0];
    assert R2_R4 - {2} == R4_B1;
    assert Walks(view, Inside(90, regs, R2_R4, None, start), 3) == Some(Inside(96, regs', R4_B1, None, start));
    n := 3;
  }

  /** Offsets 96 to 100: is the address in the second layer, or right behind it? */
  lemma InSecond(view: View, regs: seq<word>, start: seq<word>) returns (n: nat, regs': seq<word>)
    requires Kept(start, regs)
    ensures Kept(start, regs') && regs' == regs[3 := Wrap(regs[3] as int + 1)]
    ensures Walks(view, Inside(96, regs, R4_B1, None, start), n) ==
            Some(Inside(if regs[0] <= regs'[3] then 152 else 102, regs', R4_B1, Compared(regs[0], regs'[3]), start))
  {
    regs' := regs[3 := Wrap(regs[3] as int + 1)];
    var flags := Compared(regs[0], regs'[3]);
    var w, w1 := Inside(96, regs, R4_B1, None, start), Inside(98, regs', R4_B1, None, start);
    var w2 := Inside(100, regs', R4_B1, flags, start);
    var w3 := Inside(if regs[0] <= regs'[3] then 152 else 102, regs', R4_B1, flags, start);
    assert Walk(view, w) == Some(w1) && Walk(view, w1) == Some(w2) && Walk(view, w2) == Some(w3);
    WalkThrice(view, w, w1, w2, w3);
    n := 3;
  }

  lemma LoadSecondEnd(view: View, regs: seq<word>, flags: Option<Flags>, start: seq<word>)
    requires view.Keys == CELLS && Kept(start, regs)
    ensures Walk(view, Inside(102, regs, R4_B1, flags, start)) ==
            Some(Inside(104, regs[3 := EndsOf(view).e1], R4_B1, flags, start))
  {
  }

  /** Offsets 102 to 106: how far the second layer reaches past its base. */
  lemma SecondReach(view: View, regs: seq<word>, flags: Option<Flags>, start: seq<word>)
    returns (n: nat, regs': seq<word>)
    requires view.Keys == CELLS && Kept(start, regs)
    ensures Kept(start, regs') && regs'[0] == regs[0] && regs'[1] == regs[1]
    ensures regs'[2] == Wrap(EndsOf(view).e1 as int - Wrap(regs[5] as int - regs[2]))
    ensures Walks(view, Inside(102, regs, R4_B1, flags, start), n) == Some(Inside(108, regs', R4_B1, None, start))
  {
    var e1, base := EndsOf(view).e1, Wrap(regs[5] as int - regs[2]);
    regs' := regs[3 := e1][2 := base][2 := Wrap(e1 as int - base)];
    var w, w1 := Inside(102, regs, R4_B1, flags, start), Inside(104, regs[3 := e1], R4_B1, flags, start);
    var w2, w3 := Inside(106, regs[3 := e1][2 := base], R4_B1, None, start), Inside(108, regs', R4_B1, None, start);
    LoadSecondEnd(view, regs, flags, start);
    assert Walk(view, w1) == Some(w2) && Walk(view, w2) == Some(w3);
    WalkThrice(view, w, w1, w2, w3);
    n := 3;
  }

  /** Offsets 108 to 112: the reach joins the sum; the third end. */
  lemma SumThird(view: View, regs: seq<word>, start: seq<word>) returns (n: nat, regs': seq<word>)
    requires view.Keys == CELLS && Kept(start, regs)
    ensures Kept(start, regs') && regs'[0] == regs[0] && regs'[1] == Wrap(regs[2] as int + regs[1])
    ensures regs'[2] == EndsOf(view).e2
    ensures Walks(view, Inside(108, regs, R4_B1, None, start), n) == Some(Inside(114, regs', R3_R4, None, start))
  {
    regs' := regs[3 := BOUNDARY2][1 := Wrap(regs[2] as int + regs[1])][2 := EndsOf(view).e2];
    assert R4_B1[3 := BOUNDARY2] == R3_R4;
    assert Walks(view, Inside(108, regs, R4_B1, None, start), 3) == Some(Inside(114, regs', R3_R4, None, start));
    n := 3;
  }

  /** Offsets 114 to 118: compared with the third end. */
  lemma CompareThird(view: View, regs: seq<word>, start: seq<word>) returns (n: nat, regs': seq<word>)
    requires Kept(start, regs)
    ensures Kept(start, regs') && regs' == regs[1 := Wrap(regs[1] as int + 1)][2 := Wrap(regs[2] as int + 1)]
    ensures Walks(view, Inside(114, regs, R3_R4, None, start), n) ==
            Some(Inside(120, regs', R3_R4, Compared(regs[0], regs'[2]), start))
  {
    regs' := regs[1 := Wrap(regs[1] as int + 1)][2 := Wrap(regs[2] as int + 1)];
    assert Walks(view, Inside(114, regs, R3_R4, None, start), 3) ==
           Some(Inside(120, regs', R3_R4, Compared(regs[0], regs'[2]), start));
    n := 3;
  }

  /** Offsets 120 to 124: is the address in the third layer, or right behind it? The loads keep the comparison. */
  lemma InThird(view: View, regs: seq<word>, bound: word, start: seq<word>) returns (n: nat, regs': seq<word>)
    requires view.Keys == CELLS && Kept(start, regs)
    ensures Kept(start, regs') && regs' == regs[2 := EndsOf(view).e1][5 := 0x07ff_ffff]
    ensures Walks(view, Inside(120, regs, R3_R4, Compared(regs[0], bound), start), n) ==
            Some(Inside(if regs[0] <= bound then 144 else 126, regs', R3_R4, Compared(regs[0], bound), start))
  {
    regs' := regs[2 := EndsOf(view).e1][5 := 0x07ff_ffff];
    assert Walks(view, Inside(120, regs, R3_R4, Compared(regs[0], bound), start), 3) ==
           Some(Inside(if regs[0] <= bound then 144 else 126, regs', R3_R4, Compared(regs[0], bound), start));
    n := 3;
  }

  /** Offsets 126 to 130: how far the third layer reaches past its base. */
  lemma ThirdReach(view: View, regs: seq<word>, flags: Option<Flags>, start: seq<word>)
    returns (n: nat, regs': seq<word>)
    requires view.Keys == CELLS && Kept(start, regs)
    ensures Kept(start, regs') && regs'[0] == regs[0] && regs'[1] == regs[1]
    ensures regs'[2] == Wrap(EndsOf(view).e2 as int - Wrap(regs[5] as int - regs[2]))
    ensures Walks(view, Inside(126, regs, R3_R4, flags, start), n) == Some(Inside(132, regs', R3_B2, None, start))
  {
    var e2, base := EndsOf(view).e2, Wrap(regs[5] as int - regs[2]);
    regs' := regs[4 := e2][2 := base][2 := Wrap(e2 as int - base)];
    assert R3_R4 - {4} == R3_B2;
    assert Walks(view, Inside(126, regs, R3_R4, flags, start), 3) == Some(Inside(132, regs', R3_B2, None, start));
    n := 3;
  }

  /** Offsets 132 to 136: the reach joins the sum. */
  lemma SumFourth(view: View, regs: seq<word>, start: seq<word>) returns (n: nat, regs': seq<word>)
    requires view.Keys == CELLS && Kept(start, regs)
    ensures Kept(start, regs') && regs'[0] == regs[0] && regs'[2] == EndsOf(view).e2
    ensures regs'[1] == Wrap(regs[2] as int + regs[1] + 1)
    ensures Walks(view, Inside(132, regs, R3_B2, None, start), n) == Some(Inside(138, regs', R3_B2, None, start))
  {
    var sum := Wrap(regs[2] as int + regs[1]);
    WrapAgain(regs[2] as int + regs[1], 1);
    regs' := regs[1 := sum][2 := EndsOf(view).e2][1 := Wrap(sum as int + 1)];
    var w, w1 := Inside(132, regs, R3_B2, None, start), Inside(134, regs[1 := sum], R3_B2, None, start);
    var w2 := Inside(136, regs[1 := sum][2 := EndsOf(view).e2], R3_B2, None, start);
    var w3 := Inside(138, regs', R3_B2, None, start);
    assert Walk(view, w) == Some(w1) && Walk(view, w1) == Some(w2) && Walk(view, w2) == Some(w3);
    WalkThrice(view, w, w1, w2, w3);
    n := 3;
  }

  /** Offsets 138 to 142: the base of the last layer. */
  lemma FourthBase(view: View, regs: seq<word>, start: seq<word>) returns (n: nat, regs': seq<word>)
    requires Kept(start, regs)
    ensures Kept(start, regs') && regs'[0] == regs[0] && regs'[1] == regs[1]
    ensures regs'[2] == Wrap(0x0bff_ffff - regs[2] as int)
    ensures Walks(view, Inside(138, regs, R3_B2, None, start), n) == Some(Inside(146, regs', map[], None, start))
  {
    regs' := regs[3 := 0x0bff_ffff][2 := Wrap(0x0bff_ffff - regs[2] as int)];
    assert R3_B2 - {3} == map[];
    var w, w1 := Inside(138, regs, R3_B2, None, start), Inside(140, regs[3 := 0x0bff_ffff], map[], None, start);
    var w2, w3 := Inside(142, regs', map[], None, start), Inside(146, regs', map[], None, start);
    assert Walk(view, w) == Some(w1) && Walk(view, w1) == Some(w2) && Walk(view, w2) == Some(w3);
    WalkThrice(view, w, w1, w2, w3);
    n := 3;
  }

  // ---------------------------------------------------------------- the whole leaf

  /** What the forward leaf computes of a physical address: each operation truncated to 32 bits. */
  function Denormalize(p: word, e: Ends, k: word): word {
    if p <= Wrap(e.e0 + 1) then Wrap(Wrap(p as int - k) as int - 0x10_0000)
    else FromSecond(p, e, Wrap(Wrap(e.e0 as int - k) as int - 0xf_ffff))
  }

  function FromSecond(p: word, e: Ends, sum: word): word {
    if p <= Wrap(e.e1 + 1) then Wrap(p as int - Wrap(0x03ff_ffff - e.e0) + sum)
    else FromThird(p, e, Wrap(Wrap(Wrap(e.e1 as int - Wrap(0x03ff_ffff - e.e0)) as int + sum) as int + 1))
  }

  function FromThird(p: word, e: Ends, sum: word): word {
    if p <= Wrap(e.e2 + 1) then Wrap(p as int - Wrap(0x07ff_ffff - e.e1) + sum)
    else Wrap(p as int - Wrap(0x0bff_ffff - e.e2) + Wrap(Wrap(e.e2 as int - Wrap(0x07ff_ffff - e.e1)) as int + sum + 1))
  }

  /** From offset 132: the reach of the third layer is known. */
  lemma FinishFourth(view: View, regs: seq<word>, start: seq<word>) returns (n: nat)
    requires view.Keys == CELLS && Kept(start, regs)
    ensures Gives(view, Inside(132, regs, R3_B2, None, start), n, start,
                  Wrap(regs[0] as int - Wrap(0x0bff_ffff - EndsOf(view).e2) + Wrap(regs[2] as int + regs[1] + 1)))
  {
    var w := Inside(132, regs, R3_B2, None, start);
    var k1, regs1 := SumFourth(view, regs, start);
    var k2, regs2 := FourthBase(view, regs1, start);
    var m := FromBase(view, regs2, map[], None, start);
    WalkOn(view, w, k1, Inside(138, regs1, R3_B2, None, start), k2, Inside(146, regs2, map[], None, start));
    n := k1 + k2 + m;
    GivesOn(view, w, k1 + k2, Inside(146, regs2, map[], None, start), m, start,
            Wrap(regs2[0] as int - regs2[2] + regs2[1]));
  }

  lemma LastReachJoins(p: word, e: Ends, sum: word, reach: word)
    requires p > Wrap(e.e2 + 1) && reach == Wrap(e.e2 as int - Wrap(0x07ff_ffff - e.e1))
    ensures FromThird(p, e, sum) == Wrap(p as int - Wrap(0x0bff_ffff - e.e2) + Wrap(reach as int + sum + 1))
  {
  }

  /** From offset 126: past the third layer. */
  lemma PastThird(view: View, regs: seq<word>, flags: Option<Flags>, start: seq<word>) returns (n: nat)
    requires view.Keys == CELLS && Kept(start, regs) && regs[2] == EndsOf(view).e1 && regs[5] == 0x07ff_ffff
    requires regs[0] > Wrap(EndsOf(view).e2 + 1)
    ensures Gives(view, Inside(126, regs, R3_R4, flags, start), n, start, FromThird(regs[0], EndsOf(view), regs[1]))
  {
    var k, regs' := ThirdReach(view, regs, flags, start);
    var m := FinishFourth(view, regs', start);
    n := k + m;
    GivesOn(view, Inside(126, regs, R3_R4, flags, start), k, Inside(132, regs', R3_B2, None, start), m, start,
            Wrap(regs'[0] as int - Wrap(0x0bff_ffff - EndsOf(view).e2) + Wrap(regs'[2] as int + regs'[1] + 1)));
    LastReachJoins(regs[0], EndsOf(view), regs[1], regs'[2]);
  }

  /** From offset 120: the address is compared with the end of the third layer. */
  lemma FromThirdTest(view: View, regs: seq<word>, bound: word, start: seq<word>) returns (n: nat)
    requires view.Keys == CELLS && Kept(start, regs) && bound == Wrap(EndsOf(view).e2 + 1)
    ensures Gives(view, Inside(120, regs, R3_R4, Compared(regs[0], bound), start), n, start,
                  FromThird(regs[0], EndsOf(view), regs[1]))
  {
    var flags, result := Compared(regs[0], bound), FromThird(regs[0], EndsOf(view), regs[1]);
    var w := Inside(120, regs, R3_R4, flags, start);
    var k, regs' := InThird(view, regs, bound, start);
    var m;
    if regs[0] <= bound {
      m := FromMirror(view, regs', R3_R4, flags, start);
      GivesOn(view, w, k, Inside(144, regs', R3_R4, flags, start), m, start, result);
    } else {
      m := PastThird(view, regs', flags, start);
      GivesOn(view, w, k, Inside(126, regs', R3_R4, flags, start), m, start, result);
    }
    n := k + m;
  }

  /** From offset 114: the end of the third layer is loaded. */
  lemma FinishThird(view: View, regs: seq<word>, start: seq<word>) returns (n: nat)
    requires view.Keys == CELLS && Kept(start, regs) && regs[2] == EndsOf(view).e2
    ensures Gives(view, Inside(114, regs, R3_R4, None, start), n, start,
                  FromThird(regs[0], EndsOf(view), Wrap(regs[1] as int + 1)))
  {
    var k, regs' := CompareThird(view, regs, start);
    var m := FromThirdTest(view, regs', regs'[2], start);
    n := k + m;
    GivesOn(view, Inside(114, regs, R3_R4, None, start), k,
            Inside(120, regs', R3_R4, Compared(regs[0], regs'[2]), start), m, start,
            FromThird(regs[0], EndsOf(view), Wrap(regs[1] as int + 1)));
  }

  /** From offset 108: the reach of the second layer is known. */
  lemma FromReach(view: View, regs: seq<word>, start: seq<word>) returns (n: nat)
    requires view.Keys == CELLS && Kept(start, regs)
    ensures Gives(view, Inside(108, regs, R4_B1, None, start), n, start,
                  FromThird(regs[0], EndsOf(view), Wrap(Wrap(regs[2] as int + regs[1]) as int + 1)))
  {
    var k, regs' := SumThird(view, regs, start);
    var m := FinishThird(view, regs', start);
    n := k + m;
    GivesOn(view, Inside(108, regs, R4_B1, None, start), k, Inside(114, regs', R3_R4, None, start), m, start,
            FromThird(regs[0], EndsOf(view), Wrap(regs'[1] as int + 1)));
  }

  lemma ReachJoins(p: word, e: Ends, sum: word, reach: word)
    requires p > Wrap(e.e1 + 1) && reach == Wrap(e.e1 as int - Wrap(0x03ff_ffff - e.e0))
    ensures FromSecond(p, e, sum) == FromThird(p, e, Wrap(Wrap(reach as int + sum) as int + 1))
  {
  }

  /** From offset 102: past the second layer. */
  lemma PastSecond(view: View, regs: seq<word>, flags: Option<Flags>, start: seq<word>) returns (n: nat)
    requires view.Keys == CELLS && Kept(start, regs) && regs[2] == EndsOf(view).e0 && regs[5] == 0x03ff_ffff
    requires regs[0] > Wrap(EndsOf(view).e1 + 1)
    ensures Gives(view, Inside(102, regs, R4_B1, flags, start), n, start, FromSecond(regs[0], EndsOf(view), regs[1]))
  {
    var k, regs' := SecondReach(view, regs, flags, start);
    var m := FromReach(view, regs', start);
    n := k + m;
    GivesOn(view, Inside(102, regs, R4_B1, flags, start), k, Inside(108, regs', R4_B1, None, start), m, start,
            FromThird(regs'[0], EndsOf(view), Wrap(Wrap(regs'[2] as int + regs'[1]) as int + 1)));
    ReachJoins(regs[0], EndsOf(view), regs[1], regs'[2]);
  }

  /** From offset 96: the address is compared with the end of the second layer. */
  lemma FromSecondTest(view: View, regs: seq<word>, start: seq<word>) returns (n: nat)
    requires view.Keys == CELLS && Kept(start, regs)
    requires regs[2] == EndsOf(view).e0 && regs[3] == EndsOf(view).e1 && regs[5] == 0x03ff_ffff
    ensures Gives(view, Inside(96, regs, R4_B1, None, start), n, start, FromSecond(regs[0], EndsOf(view), regs[1]))
  {
    var result := FromSecond(regs[0], EndsOf(view), regs[1]);
    var w := Inside(96, regs, R4_B1, None, start);
    var k, regs' := InSecond(view, regs, start);
    var bound := regs'[3];
    var flags := Compared(regs[0], bound);
    var m;
    if regs[0] <= bound {
      m := ToMirror(view, regs', R4_B1, flags, start);
      GivesOn(view, w, k, Inside(152, regs', R4_B1, flags, start), m, start, result);
    } else {
      m := PastSecond(view, regs', flags, start);
      GivesOn(view, w, k, Inside(102, regs', R4_B1, flags, start), m, start, result);
    }
    n := k + m;
  }

  /** From offset 90: the ends of the first two layers are loaded. */
  lemma FinishSecond(view: View, regs: seq<word>, start: seq<word>) returns (n: nat)
    requires view.Keys == CELLS && Kept(start, regs)
    ensures Gives(view, Inside(90, regs, R2_R4, None, start), n, start, FromSecond(regs[0], EndsOf(view), regs[1]))
  {
    var k, regs' := SecondCells(view, regs, start);
    var m := FromSecondTest(view, regs', start);
    n := k + m;
    GivesOn(view, Inside(90, regs, R2_R4, None, start), k, Inside(96, regs', R4_B1, None, start), m, start,
            FromSecond(regs[0], EndsOf(view), regs[1]));
  }

  /** From offset 84: the first end less the offset is known. */
  lemma FromDifference(view: View, regs: seq<word>, start: seq<word>) returns (n: nat)
    requires view.Keys == CELLS && Kept(start, regs)
    ensures Gives(view, Inside(84, regs, R2_B0, None, start), n, start,
                  FromSecond(regs[0], EndsOf(view), Wrap(regs[1] as int - 0xf_ffff)))
  {
    var k, regs' := LessFirst(view, regs, start);
    var m := FinishSecond(view, regs', start);
    n := k + m;
    GivesOn(view, Inside(84, regs, R2_B0, None, start), k, Inside(90, regs', R2_R4, None, start), m, start,
            FromSecond(regs'[0], EndsOf(view), regs'[1]));
  }

  /** From offset 78: past the first layer. */
  lemma PastFirst(view: View, regs: seq<word>, flags: Option<Flags>, start: seq<word>) returns (n: nat)
    requires view.Keys == CELLS && Kept(start, regs) && regs[0] > Wrap(EndsOf(view).e0 + 1)
    ensures Gives(view, Inside(78, regs, R1_R2, flags, start), n, start,
                  Denormalize(regs[0], EndsOf(view), Skipped(view)))
  {
    var k, regs' := LessOffset(view, regs, flags, start);
    var m := FromDifference(view, regs', start);
    n := k + m;
    GivesOn(view, Inside(78, regs, R1_R2, flags, start), k, Inside(84, regs', R2_B0, None, start), m, start,
            Denormalize(regs[0], EndsOf(view), Skipped(view)));
  }

  /** The forward leaf computes `Denormalize`, whatever the layer ends, the offset and the registers. */
  lemma ForwardLeafDenormalizes(view: View, regs: seq<word>) returns (n: nat)
    requires view.Keys == CELLS && |regs| == 8
    ensures Gives(view, Entry(64, regs), n, regs, Denormalize(regs[0], EndsOf(view), Skipped(view)))
  {
    var k1, regs1 := Enter(view, regs);
    var k2, regs2 := InFirst(view, regs1, regs);
    var bound := regs1[3];
    var flags, result := Compared(regs[0], bound), Denormalize(regs[0], EndsOf(view), Skipped(view));
    WalkOn(view, Entry(64, regs), k1, Inside(72, regs1, R2_B0, None, regs), k2,
           Inside(if regs[0] <= bound then 154 else 78, regs2, R1_R2, flags, regs));
    var m;
    if regs[0] <= bound {
      m := FinishFirst(view, regs2, flags, regs);
      GivesOn(view, Entry(64, regs), k1 + k2, Inside(154, regs2, R1_R2, flags, regs), m, regs, result);
    } else {
      m := PastFirst(view, regs2, flags, regs);
      GivesOn(view, Entry(64, regs), k1 + k2, Inside(78, regs2, R1_R2, flags, regs), m, regs, result);
    }
    n := k1 + k2 + m;
  }
}
