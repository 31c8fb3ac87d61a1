/**
 What the inverse leaf of the classic template computes: the three-boundary address map. The leaf is walked
 block by block, from one comparison to the next; every block holds for all register contents, so that the
 blocks cover the paths through the four layers.
 */
module ClassicInverse {
  import opened Images
  import opened Thumb
  import opened Runs
  import opened AddressMap
  import opened LeafSimulation
  import opened ClassicTemplate
  import opened ClassicWalk

  /** The three layer ends as the leaves read them. */
  function EndsOf(view: View): Ends
    requires view.Keys == CELLS
  {
    Ends(view[(BOUNDARY0 as int, 0)], view[(BOUNDARY1 as int, 0)], view[(BOUNDARY2 as int, 0)])
  }

  const R2_B0: Tags := map[2 := BOUNDARY0]
  const R3_B1: Tags := map[3 := BOUNDARY1]
  const R3_B2: Tags := map[3 := BOUNDARY2]

  /** Inside the inverse leaf, which saves nothing. */
  function Midway(pc: nat, regs: seq<word>, tags: Tags, flags: Option<Flags>): Walker {
    Walker(pc, regs, tags, flags, None, false)
  }

  /** Two register files that differ in r0 to r3 only. */
  predicate OnlyScratch(regs: seq<word>, regs': seq<word>) {
    |regs| == |regs'| == 8 && forall r: nat :: 4 <= r < 8 ==> regs'[r] == regs[r]
  }

  /** The flags of a comparison. */
  function Compared(a: word, b: word): Option<Flags> {
    Some(Flags(a == b, a >= b))
  }

  lemma WrapAgain(x: int, k: int)
    ensures Wrap(Wrap(x) + k) == Wrap(x + k)
  {
  }

  /** Offsets 0 to 6: is the value in the first layer? */
  lemma First(view: View, regs: seq<word>) returns (n: nat, regs': seq<word>)
    requires view.Keys == CELLS && |regs| == 8
    ensures OnlyScratch(regs, regs') && regs'[0] == regs[0]
    ensures var e0 := EndsOf(view).e0;
            Walks(view, Entry(0, regs), n) ==
            Some(Midway(if regs[0] <= e0 then 62 else 8, regs', R2_B0, Compared(regs[0], e0)))
  {
    var e0 := EndsOf(view).e0;
    regs' := regs[2 := BOUNDARY0][1 := e0];
    assert Walks(view, Entry(0, regs), 4) ==
           Some(Midway(if regs[0] <= e0 then 62 else 8, regs', R2_B0, Compared(regs[0], e0)));
    n := 4;
  }

  /** Offsets 8 to 14: count from the end of the first layer. */
  lemma PastFirst(view: View, regs: seq<word>, flags: Option<Flags>) returns (n: nat, regs': seq<word>)
    requires view.Keys == CELLS && |regs| == 8
    ensures OnlyScratch(regs, regs') && regs'[1] == EndsOf(view).e0
    ensures regs'[0] == Wrap(regs[0] as int - EndsOf(view).e0 - 1)
    ensures Walks(view, Midway(8, regs, R2_B0, flags), n) == Some(Midway(16, regs', R2_B0, None))
  {
    var e0 := EndsOf(view).e0;
    WrapAgain(regs[0] as int - e0, -1);
    var count := Wrap(Wrap(regs[0] as int - e0) as int - 1);
    regs' := regs[1 := e0][0 := Wrap(regs[0] as int - e0)][1 := e0][0 := count];
    assert Walks(view, Midway(8, regs, R2_B0, flags), 4) == Some(Midway(16, regs', R2_B0, None));
    n := 4;
  }

  /** Offsets 16 and 18: the mirror point and the cell of the second layer. */
  lemma SecondCell(view: View, regs: seq<word>) returns (n: nat, regs': seq<word>)
    requires |regs| == 8
    ensures OnlyScratch(regs, regs') && regs'[0] == regs[0] && regs'[1] == regs[1] && regs'[2] == 0x03ff_ffff
    ensures Walks(view, Midway(16, regs, R2_B0, None), n) == Some(Midway(20, regs', R3_B1, None))
  {
    regs' := regs[2 := 0x03ff_ffff][3 := BOUNDARY1];
    assert (R2_B0 - {2})[3 := BOUNDARY1] == R3_B1;
    assert Walks(view, Midway(16, regs, R2_B0, None), 2) == Some(Midway(20, regs', R3_B1, None));
    n := 2;
  }

  /** Offsets 20 to 26: base and size of the second layer. */
  lemma SecondSize(view: View, regs: seq<word>) returns (n: nat, regs': seq<word>)
    requires view.Keys == CELLS && |regs| == 8
    ensures OnlyScratch(regs, regs') && regs'[0] == regs[0] && regs'[1] == Wrap(regs[2] as int - regs[1])
    ensures regs'[2] == Wrap(EndsOf(view).e1 as int - regs'[1] + 1)
    ensures Walks(view, Midway(20, regs, R3_B1, None), n) == Some(Midway(28, regs', R3_B1, None))
  {
    var base, e1 := Wrap(regs[2] as int - regs[1]), EndsOf(view).e1;
    WrapAgain(e1 as int - base, 1);
    regs' := regs[1 := base][2 := e1][2 := Wrap(e1 as int - base)][2 := Wrap(Wrap(e1 as int - base) as int + 1)];
    assert Walks(view, Midway(20, regs, R3_B1, None), 4) == Some(Midway(28, regs', R3_B1, None));
    n := 4;
  }

  /** Offsets 28 and 30: is the value in the second layer? */
  lemma InSecond(view: View, regs: seq<word>) returns (n: nat)
    requires |regs| == 8
    ensures Walks(view, Midway(28, regs, R3_B1, None), n) ==
            Some(Midway(if regs[0] < regs[2] then 60 else 32, regs, R3_B1, Compared(regs[0], regs[2])))
  {
    assert Walks(view, Midway(28, regs, R3_B1, None), 2) ==
           Some(Midway(if regs[0] < regs[2] then 60 else 32, regs, R3_B1, Compared(regs[0], regs[2])));
    n := 2;
  }

  /** Offsets 32 to 38: count from the end of the second layer. */
  lemma PastSecond(view: View, regs: seq<word>, flags: Option<Flags>) returns (n: nat, regs': seq<word>)
    requires view.Keys == CELLS && |regs| == 8
    ensures OnlyScratch(regs, regs') && regs'[0] == Wrap(regs[0] as int - regs[2])
    ensures regs'[1] == EndsOf(view).e1 && regs'[2] == 0x07ff_ffff
    ensures Walks(view, Midway(32, regs, R3_B1, flags), n) == Some(Midway(40, regs', R3_B2, None))
  {
    regs' := regs[1 := EndsOf(view).e1][0 := Wrap(regs[0] as int - regs[2])][2 := 0x07ff_ffff][3 := BOUNDARY2];
    assert R3_B1[3 := BOUNDARY2] == R3_B2;
    assert Walks(view, Midway(32, regs, R3_B1, flags), 4) ==
           Some(Midway(40, regs', R3_B2, None));
    n := 4;
  }

  /** Offsets 40 to 46: base and size of the third layer. */
  lemma ThirdSize(view: View, regs: seq<word>) returns (n: nat, regs': seq<word>)
    requires view.Keys == CELLS && |regs| == 8
    ensures OnlyScratch(regs, regs') && regs'[0] == regs[0] && regs'[1] == Wrap(regs[2] as int - regs[1])
    ensures regs'[2] == Wrap(EndsOf(view).e2 as int - regs'[1] + 1)
    ensures Walks(view, Midway(40, regs, R3_B2, None), n) == Some(Midway(48, regs', R3_B2, None))
  {
    var base, e2 := Wrap(regs[2] as int - regs[1]), EndsOf(view).e2;
    WrapAgain(e2 as int - base, 1);
    regs' := regs[1 := base][2 := e2][2 := Wrap(e2 as int - base)][2 := Wrap(Wrap(e2 as int - base) as int + 1)];
    assert Walks(view, Midway(40, regs, R3_B2, None), 4) == Some(Midway(48, regs', R3_B2, None));
    n := 4;
  }

  /** Offsets 48 and 50: is the value in the third layer? */
  lemma InThird(view: View, regs: seq<word>) returns (n: nat)
    requires |regs| == 8
    ensures Walks(view, Midway(48, regs, R3_B2, None), n) ==
            Some(Midway(if regs[0] < regs[2] then 60 else 52, regs, R3_B2, Compared(regs[0], regs[2])))
  {
    assert Walks(view, Midway(48, regs, R3_B2, None), 2) ==
           Some(Midway(if regs[0] < regs[2] then 60 else 52, regs, R3_B2, Compared(regs[0], regs[2])));
    n := 2;
  }

  /** Offsets 52 to 58: count from the end of the third layer. */
  lemma PastThird(view: View, regs: seq<word>, flags: Option<Flags>) returns (n: nat, regs': seq<word>)
    requires view.Keys == CELLS && |regs| == 8
    ensures OnlyScratch(regs, regs') && regs'[0] == Wrap(regs[0] as int - regs[2])
    ensures regs'[1] == Wrap(0x0bff_ffff - EndsOf(view).e2)
    ensures Walks(view, Midway(52, regs, R3_B2, flags), n) == Some(Midway(60, regs', R3_B2, None))
  {
    var e2 := EndsOf(view).e2;
    regs' := regs[1 := e2][0 := Wrap(regs[0] as int - regs[2])][2 := 0x0bff_ffff][1 := Wrap(0x0bff_ffff - e2 as int)];
    assert Walks(view, Midway(52, regs, R3_B2, flags), 4) ==
           Some(Midway(60, regs', R3_B2, None));
    n := 4;
  }

  // ---------------------------------------------------------------- the whole leaf

  /** Only r1 to r3 may still hold RAM addresses. */
  predicate ScratchTags(tags: Tags) {
    forall r :: r in tags ==> 1 <= r <= 3
  }

  /** The walk returns `result` after `n` instructions, with r4 to r7 as they were. */
  ghost predicate Gives(view: View, w: Walker, n: nat, regs: seq<word>, result: word) {
    && Walks(view, w, n).Some?
    && var end := Walks(view, w, n).value;
       end.returned && ScratchTags(end.tags) && OnlyScratch(regs, end.regs) && end.regs[0] == result && end.saved.None?
  }

  /** What is given later is given from the start. */
  lemma GivesOn(view: View, w: Walker, n: nat, w1: Walker, m: nat, regs: seq<word>, result: word)
    requires Walks(view, w, n) == Some(w1) && Gives(view, w1, m, regs, result)
    ensures Gives(view, w, n + m, regs, result)
  {
    RunOn(Walking(view), w, n, w1, m);
  }

  /** Offset 62: the return. */
  lemma Return(view: View, regs: seq<word>, start: seq<word>, tags: Tags, flags: Option<Flags>) returns (n: nat)
    requires OnlyScratch(start, regs) && ScratchTags(tags)
    ensures Gives(view, Midway(62, regs, tags, flags), n, start, regs[0])
  {
    assert Walks(view, Midway(62, regs, tags, flags), 1) == Some(Midway(62, regs, tags, flags).(returned := true));
    n := 1;
  }

  /** Offsets 60 and 62: add the base and return. */
  lemma AddBase(view: View, regs: seq<word>, start: seq<word>, tags: Tags, flags: Option<Flags>) returns (n: nat)
    requires OnlyScratch(start, regs) && ScratchTags(tags) && 1 !in tags
    ensures Gives(view, Midway(60, regs, tags, flags), n, start, Wrap(regs[0] as int + regs[1]))
  {
    var sum := regs[0 := Wrap(regs[0] as int + regs[1])];
    assert Walks(view, Midway(60, regs, tags, flags), 1) == Some(Midway(62, sum, tags, None));
    var m := Return(view, sum, start, tags, None);
    n := 1 + m;
    GivesOn(view, Midway(60, regs, tags, flags), 1, Midway(62, sum, tags, None), m, start, sum[0]);
  }

  /** The map from the end of the second layer on. */
  function BeyondSecond(value: word, e: Ends): word {
    var base := Wrap(0x07ff_ffff - e.e1);
    var size := Wrap(e.e2 as int - base + 1);
    if value < size then Wrap(value as int + base)
    else Wrap(Wrap(value as int - size) as int + Wrap(0x0bff_ffff - e.e2))
  }

  /** From offset 52. */
  lemma FinishFourth(view: View, regs: seq<word>, start: seq<word>, flags: Option<Flags>) returns (n: nat)
    requires view.Keys == CELLS && OnlyScratch(start, regs)
    ensures Gives(view, Midway(52, regs, R3_B2, flags), n, start,
                  Wrap(Wrap(regs[0] as int - regs[2]) as int + Wrap(0x0bff_ffff - EndsOf(view).e2)))
  {
    var k, regs' := PastThird(view, regs, flags);
    var m := AddBase(view, regs', start, R3_B2, None);
    n := k + m;
    GivesOn(view, Midway(52, regs, R3_B2, flags), k, Midway(60, regs', R3_B2, None), m, start,
            Wrap(regs'[0] as int + regs'[1]));
  }

  /** From offset 48: in the third layer, or past it. */
  lemma FinishThirdSize(view: View, regs: seq<word>, start: seq<word>) returns (n: nat)
    requires view.Keys == CELLS && OnlyScratch(start, regs)
    ensures Gives(view, Midway(48, regs, R3_B2, None), n, start,
                  if regs[0] < regs[2] then Wrap(regs[0] as int + regs[1])
                  else Wrap(Wrap(regs[0] as int - regs[2]) as int + Wrap(0x0bff_ffff - EndsOf(view).e2)))
  {
    var k := InThird(view, regs);
    var flags := Compared(regs[0], regs[2]);
    var m;
    if regs[0] < regs[2] {
      m := AddBase(view, regs, start, R3_B2, flags);
      GivesOn(view, Midway(48, regs, R3_B2, None), k, Midway(60, regs, R3_B2, flags), m, start,
              Wrap(regs[0] as int + regs[1]));
    } else {
      m := FinishFourth(view, regs, start, flags);
      GivesOn(view, Midway(48, regs, R3_B2, None), k, Midway(52, regs, R3_B2, flags), m, start,
              Wrap(Wrap(regs[0] as int - regs[2]) as int + Wrap(0x0bff_ffff - EndsOf(view).e2)));
    }
    n := k + m;
  }

  lemma SizeOfThird(value: word, e: Ends, base: word, size: word)
    requires base == Wrap(0x07ff_ffff - e.e1) && size == Wrap(e.e2 as int - base + 1)
    ensures BeyondSecond(value, e) == if value < size then Wrap(value as int + base)
                                      else Wrap(Wrap(value as int - size) as int + Wrap(0x0bff_ffff - e.e2))
  {
  }

  /** From offset 40. */
  lemma FinishThird(view: View, regs: seq<word>, start: seq<word>) returns (n: nat)
    requires view.Keys == CELLS && OnlyScratch(start, regs)
    requires regs[1] == EndsOf(view).e1 && regs[2] == 0x07ff_ffff
    ensures Gives(view, Midway(40, regs, R3_B2, None), n, start, BeyondSecond(regs[0], EndsOf(view)))
  {
    var k, regs' := ThirdSize(view, regs);
    var m := FinishThirdSize(view, regs', start);
    n := k + m;
    SizeOfThird(regs[0], EndsOf(view), regs'[1], regs'[2]);
    GivesOn(view, Midway(40, regs, R3_B2, None), k, Midway(48, regs', R3_B2, None), m, start,
            BeyondSecond(regs[0], EndsOf(view)));
  }

  /** From offset 32. */
  lemma FinishEnd1(view: View, regs: seq<word>, start: seq<word>, flags: Option<Flags>) returns (n: nat)
    requires view.Keys == CELLS && OnlyScratch(start, regs)
    ensures Gives(view, Midway(32, regs, R3_B1, flags), n, start,
                  BeyondSecond(Wrap(regs[0] as int - regs[2]), EndsOf(view)))
  {
    var k, regs' := PastSecond(view, regs, flags);
    var m := FinishThird(view, regs', start);
    n := k + m;
    GivesOn(view, Midway(32, regs, R3_B1, flags), k, Midway(40, regs', R3_B2, None), m, start,
            BeyondSecond(regs'[0], EndsOf(view)));
  }

  /** The map from the end of the first layer on. */
  function BeyondFirst(value: word, e: Ends): word {
    var base := Wrap(0x03ff_ffff - e.e0);
    var size := Wrap(e.e1 as int - base + 1);
    if value < size then Wrap(value as int + base) else BeyondSecond(Wrap(value as int - size), e)
  }

  /** From offset 28: in the second layer, or past it. */
  lemma FinishSecondSize(view: View, regs: seq<word>, start: seq<word>) returns (n: nat)
    requires view.Keys == CELLS && OnlyScratch(start, regs)
    ensures Gives(view, Midway(28, regs, R3_B1, None), n, start,
                  if regs[0] < regs[2] then Wrap(regs[0] as int + regs[1])
                  else BeyondSecond(Wrap(regs[0] as int - regs[2]), EndsOf(view)))
  {
    var k := InSecond(view, regs);
    var flags := Compared(regs[0], regs[2]);
    var m;
    if regs[0] < regs[2] {
      m := AddBase(view, regs, start, R3_B1, flags);
      GivesOn(view, Midway(28, regs, R3_B1, None), k, Midway(60, regs, R3_B1, flags), m, start,
              Wrap(regs[0] as int + regs[1]));
    } else {
      m := FinishEnd1(view, regs, start, flags);
      GivesOn(view, Midway(28, regs, R3_B1, None), k, Midway(32, regs, R3_B1, flags), m, start,
              BeyondSecond(Wrap(regs[0] as int - regs[2]), EndsOf(view)));
    }
    n := k + m;
  }

  /** From offset 20. */
  lemma FinishSecond(view: View, regs: seq<word>, start: seq<word>) returns (n: nat)
    requires view.Keys == CELLS && OnlyScratch(start, regs)
    requires regs[1] == EndsOf(view).e0 && regs[2] == 0x03ff_ffff
    ensures Gives(view, Midway(20, regs, R3_B1, None), n, start, BeyondFirst(regs[0], EndsOf(view)))
  {
    var k, regs' := SecondSize(view, regs);
    var m := FinishSecondSize(view, regs', start);
    n := k + m;
    GivesOn(view, Midway(20, regs, R3_B1, None), k, Midway(28, regs', R3_B1, None), m, start,
            BeyondFirst(regs[0], EndsOf(view)));
  }

  /** From offset 8. */
  lemma FinishEnd0(view: View, regs: seq<word>, start: seq<word>, flags: Option<Flags>) returns (n: nat)
    requires view.Keys == CELLS && OnlyScratch(start, regs)
    ensures Gives(view, Midway(8, regs, R2_B0, flags), n, start,
                  BeyondFirst(Wrap(regs[0] as int - EndsOf(view).e0 - 1), EndsOf(view)))
  {
    var k1, regs1 := PastFirst(view, regs, flags);
    var k2, regs2 := SecondCell(view, regs1);
    var m := FinishSecond(view, regs2, start);
    n := k1 + k2 + m;
    WalkOn(view, Midway(8, regs, R2_B0, flags), k1, Midway(16, regs1, R2_B0, None), k2, Midway(20, regs2, R3_B1, None));
    GivesOn(view, Midway(8, regs, R2_B0, flags), k1 + k2, Midway(20, regs2, R3_B1, None), m, start,
            BeyondFirst(regs2[0], EndsOf(view)));
  }

  lemma NormalizeIsBeyond(value: word, e: Ends)
    requires value > e.e0
    ensures Normalize(value, e) == BeyondFirst(Wrap(value - e.e0 - 1), e)
  {
  }

  /** The inverse leaf computes the address map, whatever the layer ends and the registers. */
  lemma InverseLeafNormalizes(view: View, regs: seq<word>) returns (n: nat)
    requires view.Keys == CELLS && |regs| == 8
    ensures Gives(view, Entry(0, regs), n, regs, Normalize(regs[0], EndsOf(view)))
  {
    var k, regs' := First(view, regs);
    var flags := Compared(regs[0], EndsOf(view).e0);
    if regs[0] <= EndsOf(view).e0 {
      var m := Return(view, regs', regs, R2_B0, flags);
      n := k + m;
      GivesOn(view, Entry(0, regs), k, Midway(62, regs', R2_B0, flags), m, regs, regs'[0]);
    } else {
      var m := FinishEnd0(view, regs', regs, flags);
      n := k + m;
      GivesOn(view, Entry(0, regs), k, Midway(8, regs', R2_B0, flags), m, regs,
              BeyondFirst(Wrap(regs[0] as int - EndsOf(view).e0 - 1), EndsOf(view)));
      NormalizeIsBeyond(regs[0], EndsOf(view));
    }
  }
}
