/**
 What a successful binding of the classic leaves gives: the code that was found computes the address map and
 its inverse, on the layer ends that its own RAM cells hold. The walks of `ClassicInverse` and `ClassicForward`
 become runs of the template on a renamed memory, `LeafSimulation` takes them to the source, and the truncated
 sums of the forward leaf are shown to undo the map.
 */
module ClassicBinding {
  import opened Images
  import opened Graphs
  import opened Runs
  import opened Thumb
  import opened AddressMap
  import opened ClassicMapping
  import opened LeafSimulation
  import opened ClassicTemplate
  import opened ClassicWalk
  import opened ClassicInverse
  import opened ClassicForward

  // ---------------------------------------------------------------- the forward leaf undoes the inverse leaf

  /** Which layer's formula undoes the map: the first address of a layer may be counted with the one before. */
  lemma LinearParts(v: word, e: Ends, p: word)
    requires e.WellFormed() && p == Unwrapped(v, e)
    ensures p <= e.e0 + 1 ==> p == v
    ensures e.e0 + 1 < p <= e.e1 + 1 ==> p - e.Base1() + e.e0 + 1 == v
    ensures e.e1 + 1 < p <= e.e2 + 1 ==> p - e.Base2() + e.e0 + 1 + e.Size1() == v
    ensures e.e2 + 1 < p ==> p - e.Base3() + e.Total() == v
  {
  }

  lemma SmallParts(e: Ends)
    requires e.WellFormed()
    ensures Wrap(e.e0 + 1) == e.e0 + 1 && Wrap(e.e1 + 1) == e.e1 + 1 && Wrap(e.e2 + 1) == e.e2 + 1
    ensures Wrap(0x03ff_ffff - e.e0) == e.Base1() && Wrap(0x07ff_ffff - e.e1) == e.Base2()
    ensures Wrap(0x0bff_ffff - e.e2) == e.Base3()
    ensures Wrap(e.e1 as int - e.Base1()) == e.Size1() - 1 && Wrap(e.e2 as int - e.Base2()) == e.Size2() - 1
  {
  }

  /** Sums of truncated sums, as the forward leaf makes them. */
  lemma Sums(first: int, size1: int, size2: int)
    ensures Wrap(Wrap(size1 - 1 + Wrap(first)) as int + 1) == Wrap(first + size1)
    ensures Wrap(size2 - 1 + Wrap(first + size1) + 1) == Wrap(first + size1 + size2)
  {
    WrapAgain(first, size1 - 1);
    WrapAgain(first + size1 - 1, 1);
    WrapAgain(first + size1, size2);
  }

  lemma ThirdSum(e: Ends, p: word, first: int)
    requires e.WellFormed() && p <= e.e2 + 1
    ensures FromThird(p, e, Wrap(first + e.Size1())) == Wrap(first + e.Size1() + p - e.Base2())
  {
    SmallParts(e);
    WrapAgain(first + e.Size1(), p - e.Base2());
    assert FromThird(p, e, Wrap(first + e.Size1())) == Wrap(p - e.Base2() + Wrap(first + e.Size1()));
  }

  lemma PastLast(e: Ends, p: word, sum: word)
    requires e.WellFormed() && p > e.e2 + 1
    ensures FromThird(p, e, sum) == Wrap(p - e.Base3() + Wrap(e.Size2() - 1 + sum + 1))
  {
    SmallParts(e);
  }

  lemma FourthSum(e: Ends, p: word, first: int)
    requires e.WellFormed() && p > e.e2 + 1
    ensures FromThird(p, e, Wrap(first + e.Size1())) == Wrap(first + e.Size1() + e.Size2() + p - e.Base3())
  {
    PastLast(e, p, Wrap(first + e.Size1()));
    Sums(first, e.Size1(), e.Size2());
    WrapAgain(first + e.Size1() + e.Size2(), p - e.Base3());
  }

  lemma ThirdUndone(v: word, e: Ends, p: word, first: int)
    requires e.WellFormed() && p == Unwrapped(v, e) && p > e.e1 + 1
    ensures FromThird(p, e, Wrap(first + e.Size1())) == Wrap(v - e.e0 - 1 + first)
  {
    LinearParts(v, e, p);
    if p <= e.e2 + 1 {
      ThirdSum(e, p, first);
    } else {
      FourthSum(e, p, first);
    }
  }

  lemma SecondUndone(v: word, e: Ends, p: word, first: int)
    requires e.WellFormed() && p == Unwrapped(v, e) && p > e.e0 + 1
    ensures FromSecond(p, e, Wrap(first)) == Wrap(v - e.e0 - 1 + first)
  {
    LinearParts(v, e, p);
    SmallParts(e);
    if p <= e.e1 + 1 {
      WrapAgain(first, p - e.Base1());
      assert FromSecond(p, e, Wrap(first)) == Wrap(p - e.Base1() + Wrap(first));
    } else {
      ToThird(e, p, first);
      ThirdUndone(v, e, p, first);
    }
  }

  lemma PastSecondEnd(e: Ends, p: word, sum: word)
    requires e.WellFormed() && p > e.e1 + 1
    ensures FromSecond(p, e, sum) == FromThird(p, e, Wrap(Wrap(e.Size1() - 1 + sum) as int + 1))
  {
    SmallParts(e);
  }

  lemma ToThird(e: Ends, p: word, first: int)
    requires e.WellFormed() && p > e.e1 + 1
    ensures FromSecond(p, e, Wrap(first)) == FromThird(p, e, Wrap(first + e.Size1()))
  {
    PastSecondEnd(e, p, Wrap(first));
    Sums(first, e.Size1(), e.Size2());
  }

  /** Both leaves together take a value back to itself, less the recorded offset and the first physical sector. */
  lemma DenormalizeUndoesNormalize(v: word, e: Ends, k: word)
    requires e.WellFormed() && Fits(v, e)
    ensures Denormalize(Normalize(v, e), e, k) == Wrap(v - k - 0x10_0000)
  {
    WrappingIsHarmless(v, e);
    var p := Normalize(v, e);
    LinearParts(v, e, p);
    SmallParts(e);
    if p <= e.e0 + 1 {
      WrapAgain(p - k, -0x10_0000);
    } else {
      WrapAgain(e.e0 - k, -0xf_ffff);
      SecondUndone(v, e, p, e.e0 - k - 0xf_ffff);
    }
  }

  // ---------------------------------------------------------------- the cells of the code that was found

  /** `v` and `ram` are what the binding returned: see `ClassicMapping.BindLeaves`. */
  ghost predicate BoundTo(p: Problem, v: set<Pair>, ram: map<int, int>) {
    Qualifies(p, v) && Graph(ram) == Roles(p, v)
  }

  /** A RAM address that some template literal names has a counterpart. */
  lemma CellIsBound(p: Problem, v: set<Pair>, ram: map<int, int>, o: int, cell: word)
    requires Native(p) && BoundTo(p, v, ram) && IsOffset(o) && LiteralAt(o) == Some(cell) && InRam(cell)
    ensures cell as int in ram
  {
    assert o in Domain(v);
    var at :| at in v && at.0 == o;
    assert Visit(p, at).Some?;
    assert Role(p, at).Some? && Role(p, at).value in Roles(p, v);
    var x :| x in ram && (x, ram[x]) == Role(p, at).value;
  }

  lemma CellLiterals()
    ensures LiteralAt(0) == Some(BOUNDARY0) && LiteralAt(18) == Some(BOUNDARY1)
    ensures LiteralAt(38) == Some(BOUNDARY2) && LiteralAt(72) == Some(CACHE)
  {
  }

  predicate CellsIn(ram: map<int, int>) {
    BOUNDARY0 as int in ram && BOUNDARY1 as int in ram && BOUNDARY2 as int in ram && CACHE as int in ram
  }

  lemma CellsAreBound(p: Problem, v: set<Pair>, ram: map<int, int>)
    requires Native(p) && BoundTo(p, v, ram)
    ensures CellsIn(ram)
  {
    CellLiterals();
    CellIsBound(p, v, ram, 0, BOUNDARY0);
    CellIsBound(p, v, ram, 18, BOUNDARY1);
    CellIsBound(p, v, ram, 38, BOUNDARY2);
    CellIsBound(p, v, ram, 72, CACHE);
  }

  /** What the cells of the code that was found hold. */
  function SourceView(ram: map<int, int>, m: Memory): View
    requires CellsIn(ram)
  {
    map key | key in CELLS :: WordAt(m, Near(ram[key.0], key.1))
  }

  /** The layer ends that they hold. */
  function EndsHeld(ram: map<int, int>, m: Memory): Ends
    requires CellsIn(ram)
  {
    EndsOf(SourceView(ram, m))
  }

  /** The recorded offset that they hold. */
  function OffsetHeld(ram: map<int, int>, m: Memory): word
    requires CellsIn(ram)
  {
    Skipped(SourceView(ram, m))
  }

  /** The byte that a source memory holds for a template address inside a cell. */
  function Renamed(ram: map<int, int>, m: Memory): Memory
    requires CellsIn(ram)
  {
    var b0, b1, b2, c := ram[BOUNDARY0 as int], ram[BOUNDARY1 as int], ram[BOUNDARY2 as int], ram[CACHE as int];
    (x: int) =>
      if 0 <= x - BOUNDARY0 < 4 then m(Near(b0, 0) as int + x - BOUNDARY0)
      else if 0 <= x - BOUNDARY1 < 4 then m(Near(b1, 0) as int + x - BOUNDARY1)
      else if 0 <= x - BOUNDARY2 < 4 then m(Near(b2, 0) as int + x - BOUNDARY2)
      else if 0 <= x - CACHE - 8 < 4 then m(Near(c, 8) as int + x - CACHE - 8)
      else 0
  }

  lemma {:induction false} RenamedShows(ram: map<int, int>, m: Memory)
    requires CellsIn(ram)
    ensures Shows(Renamed(ram, m), SourceView(ram, m))
  {
    var t := Renamed(ram, m);
    assert WordAt(t, Near(BOUNDARY0, 0)) == WordAt(m, Near(ram[BOUNDARY0 as int], 0));
    assert WordAt(t, Near(BOUNDARY1, 0)) == WordAt(m, Near(ram[BOUNDARY1 as int], 0));
    assert WordAt(t, Near(BOUNDARY2, 0)) == WordAt(m, Near(ram[BOUNDARY2 as int], 0));
    assert WordAt(t, Near(CACHE, 8)) == WordAt(m, Near(ram[CACHE as int], 8));
  }

  /** The template machine that a source machine corresponds to. */
  function Counterpart(ram: map<int, int>, s: State): State
    requires CellsIn(ram)
  {
    s.(memory := Renamed(ram, s.memory))
  }

  lemma CounterpartIsRelated(p: Problem, v: set<Pair>, ram: map<int, int>, s: State)
    requires BoundTo(p, v, ram) && s.Valid() && CellsIn(ram)
    ensures Related(Roles(p, v), map[], CELLS, Counterpart(ram, s), s)
  {
    var t := Renamed(ram, s.memory);
    RenamedShows(ram, s.memory);
    forall a: int, b: int, k: int | (a, b) in Roles(p, v) && (a, k) in CELLS
      ensures WordAt(t, Near(a, k)) == WordAt(s.memory, Near(b, k))
    {
      assert (a, b) in Graph(ram);
      assert (a, k) in SourceView(ram, s.memory);
    }
  }

  lemma LowOffsetsAreTagged(o: int)
    requires 0 <= o < 84 && LiteralAt(o).None?
    ensures !(0x4800 <= HalfAt(o) < 0x5000)
  {
  }

  lemma HighOffsetsAreTagged(o: int)
    requires 84 <= o <= 164 && LiteralAt(o).None?
    ensures !(0x4800 <= HalfAt(o) < 0x5000)
  {
  }

  lemma TemplateIsTagged(p: Problem)
    requires Native(p)
    ensures WellTagged(p)
  {
    forall o | o in p.items && p.items[o].literal.None? ensures !OpOf(p.items[o].bytes).LoadLiteral? {
      if o < 84 {
        LowOffsetsAreTagged(o);
      } else {
        HighOffsetsAreTagged(o);
      }
    }
  }

  // ---------------------------------------------------------------- what the found code computes

  /**
   The source code at `pc` returns after `n` instructions with `result`, and r4 to r7, the stack, the link and
   the memory kept.
   */
  ghost predicate Computes(p: Problem, pc: int, s: State, n: nat, s': State, result: word) {
    && s.Valid() && s'.Valid() && Run(OnSource(p), Running(pc, s), n) == Some(Returned(s'))
    && s'.regs[0] == result && s'.stack == s.stack && s'.link == s.link && SameMemory(s, s')
    && forall r: nat :: 4 <= r < 8 ==> s'.regs[r] == s.regs[r]
  }

  /**
   What a leaf gives as a walk, it gives as a run of the template: the result in r0, all but r0
   to r3 and the flags kept.
   */
  lemma LeafRuns(p: Problem, view: View, pc: nat, s: State, n: nat, result: word) returns (end: Tracked)
    requires Native(p) && s.Valid() && Shows(s.memory, view) && Gives(view, Entry(pc, s.regs), n, s.regs, result)
    ensures Run(OnTemplate(p, CELLS), Tracked(Running(pc, s), map[]), n) == Some(end) && ScratchTags(end.tags)
    ensures var t := end.config.state;
            && end.config.Returned? && OnlyScratch(s.regs, t.regs) && t.regs[0] == result
            && t.link == s.link && t.stack == s.stack && t.memory == s.memory && t.stores == s.stores
  {
    end := WalkIsRun(p, view, s, Entry(pc, s.regs), Tracked(Running(pc, s), map[]), n,
                     Walks(view, Entry(pc, s.regs), n).value);
  }

  /** A result of the template is a result of the code bound to it. */
  lemma ResultIsComputed(p: Problem, v: set<Pair>, ram: map<int, int>, root: Pair, s: State, n: nat, result: word)
    returns (s': State)
    requires Native(p) && BoundTo(p, v, ram) && CellsIn(ram) && s.Valid() && root in Roots(p) && root.0 >= 0
    requires Gives(SourceView(ram, s.memory), Entry(root.0, s.regs), n, s.regs, result)
    ensures Computes(p, root.1, s, n, s', result)
  {
    RenamedShows(ram, s.memory);
    var end := LeafRuns(p, SourceView(ram, s.memory), root.0, Counterpart(ram, s), n, result);
    CounterpartIsRelated(p, v, ram, s);
    TemplateIsTagged(p);
    var config := BoundLeavesSimulateTemplate(p, v, CELLS, root, Counterpart(ram, s), s, n, end);
    s' := config.state;
  }

  /**
   Whenever the binding succeeds, the code found for the inverse leaf maps every value as `Normalize` does,
   on the layer ends its own cells hold.
   */
  lemma BoundInverseNormalizes(p: Problem, v: set<Pair>, ram: map<int, int>, s: State) returns (n: nat, s': State)
    requires Native(p) && BoundTo(p, v, ram) && s.Valid()
    ensures CellsIn(ram) && Computes(p, p.inverse, s, n, s', Normalize(s.regs[0], EndsHeld(ram, s.memory)))
  {
    CellsAreBound(p, v, ram);
    n := InverseLeafNormalizes(SourceView(ram, s.memory), s.regs);
    s' := ResultIsComputed(p, v, ram, (0, p.inverse), s, n, Normalize(s.regs[0], EndsHeld(ram, s.memory)));
  }

  /** And the code found for the forward leaf computes `Denormalize`. */
  lemma BoundForwardDenormalizes(p: Problem, v: set<Pair>, ram: map<int, int>, s: State) returns (n: nat, s': State)
    requires Native(p) && BoundTo(p, v, ram) && s.Valid()
    ensures CellsIn(ram)
    ensures Computes(p, p.forward, s, n, s', Denormalize(s.regs[0], EndsHeld(ram, s.memory), OffsetHeld(ram, s.memory)))
  {
    CellsAreBound(p, v, ram);
    n := ForwardLeafDenormalizes(SourceView(ram, s.memory), s.regs);
    s' := ResultIsComputed(p, v, ram, (FORWARD, p.forward), s, n,
                           Denormalize(s.regs[0], EndsHeld(ram, s.memory), OffsetHeld(ram, s.memory)));
  }
}
