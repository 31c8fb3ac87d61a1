/**
 Which code the search for the classic leaves accepts, told without the search: the template's instructions in
 one to one places of the image, its RAM cells renamed one to one. The disassembler is that of `ThumbDecoder`, so
 nothing is left open about how the image decodes.
 */
module ClassicRelocation {
  import opened Images
  import opened Disassembly
  import opened Reachability
  import opened Graphs
  import opened Thumb
  import opened ClassicMapping
  import opened LeafSimulation
  import opened ClassicTemplate
  import opened ThumbDecoder

  function Offsets(): set<int> {
    set o | 0 <= o <= 164 && IsOffset(o)
  }

  /** The words that stand for the template's RAM addresses, one for each and in RAM too. */
  ghost predicate IsRenaming(ram: map<int, int>) {
    (forall w :: w in ram <==> IsCell(w)) && NoAliases(ram) && forall w :: w in ram ==> InRam(ram[w])
  }

  predicate IsCell(w: int) {
    w == BOUNDARY0 || w == BOUNDARY1 || w == BOUNDARY2 || w == CACHE
  }

  function Renamed(ram: map<int, int>, w: int): int {
    if w in ram then ram[w] else w
  }

  /** Control passes from the copy of one offset to the copy of another. */
  predicate GoesTo(places: map<int, int>, at: int, offset: int) {
    offset in places && places[offset] == at
  }

  /** A halfword, the operation it stands for, and the word it loads if it is a literal load. */
  datatype Code = Code(half: int, op: Op, literal: Option<word>)

  function TemplateCode(o: int): Code {
    Code(HalfAt(o), OpAt(o), LiteralAt(o))
  }

  function ImageCode(data: seq<byte>, at: nat): Code {
    Code(Half(data, at), Meaning(Half(data, at)), Literal(data, at))
  }

  /** `found` at place `at` does what the template's `code` does at offset `o`. */
  predicate Does(places: map<int, int>, ram: map<int, int>, o: int, code: Code, at: int, found: Code) {
    match code.op
    case LoadLiteral(_) =>
      && found.op == code.op && GoesTo(places, at + 2, o + 2)
      && found.literal.Some? && code.literal.Some? && found.literal.value == Renamed(ram, code.literal.value)
    case BranchIf(condition, distance) =>
      && found.op.BranchIf? && found.op.condition == condition && GoesTo(places, at + 2, o + 2)
      && GoesTo(places, at + 4 + found.op.distance, o + 4 + distance)
    case Branch(distance) => found.op.Branch? && GoesTo(places, at + 4 + found.op.distance, o + 4 + distance)
    case Return => found.half == code.half
    case Pop(_, _) => found.half == code.half
    case _ => found.half == code.half && GoesTo(places, at + 2, o + 2)
  }

  predicate IsCopy(data: seq<byte>, places: map<int, int>, ram: map<int, int>, o: int, at: nat) {
    Does(places, ram, o, TemplateCode(o), at, ImageCode(data, at))
  }

  ghost predicate HoldsCopies(data: seq<byte>, places: map<int, int>, ram: map<int, int>) {
    forall o :: o in places ==> 0 <= places[o] && places[o] + 2 <= |data| && IsCopy(data, places, ram, o, places[o])
  }

  /**
   The image of a problem holds both leaves in places of its own, one to one, with RAM addresses of its own: each
   instruction is followed by the place of the next one, branches go to the places of their targets, other
   instructions are the same halfword, and literal loads find the template's word, or for a word in RAM the word
   that stands for it. With the disassembler of `ThumbDecoder` nothing else is asked of the image.
   */
  ghost predicate IsRelocation(p: Problem, b: Binding) {
    && b.instructions.Keys == Offsets() && NoAliases(b.instructions) && IsRenaming(b.ram)
    && b.instructions[0] == p.inverse && b.instructions[FORWARD] == p.forward
    && HoldsCopies(p.data, b.instructions, b.ram)
  }

  // ---------------------------------------------------------------- one pair of the search

  /** What the disassembler makes of an operation. */
  function InsnOf(h: int, op: Op, pc: int): Insn
    requires 0 <= h < 0x1_0000
  {
    Insn(MnemonicOf(op), HalfBytes(h), OperandsOf(op, pc), {}, false, op.BranchIf? || op.Branch? || op.Return?,
         op.Pop? && op.pcToo)
  }

  lemma CallsAreUnknown(h: int)
    ensures h / 0x800 == 0x1e ==> Meaning(h).Unknown?
  {
  }

  lemma HalvesFit(o: int)
    ensures 0 <= HalfAt(o) < 0x1_0000
  {
  }

  lemma WindowDecodes(window: seq<byte>, pc: int, h: int)
    requires 2 <= |window| && 0 <= h < 0x1_0000 && window[0] == h % 0x100 && window[1] == h / 0x100
    ensures !Meaning(h).Unknown? ==> Decode(window, pc) == Some(InsnOf(h, Meaning(h), pc))
    ensures Meaning(h).Unknown? && Decode(window, pc).Some? ==> |Decode(window, pc).value.bytes| == 4
  {
    CallsAreUnknown(h);
    assert Half(window, 0) == h;
    assert window[..2] == HalfBytes(h);
    assert OpOf(window[..2]) == Meaning(h);
  }

  lemma HalfIsRead(data: seq<byte>, at: nat)
    requires at + 2 <= |data|
    ensures var window, h := Slice(data, at, at + 4), Half(data, at);
      0 <= h < 0x1_0000 && |window| >= 2 && window[0] == h % 0x100 && window[1] == h / 0x100
  {
  }

  /** Two bytes of the image decode exactly when their halfword has a meaning. */
  lemma ImageDecodes(data: seq<byte>, at: nat)
    requires at + 2 <= |data|
    ensures 0 <= Half(data, at) < 0x1_0000
    ensures var h := Half(data, at);
      !Meaning(h).Unknown? ==> DecodeAt(Decode, data, at) == Some(InsnOf(h, Meaning(h), at))
    ensures var found := DecodeAt(Decode, data, at);
      Meaning(Half(data, at)).Unknown? && found.Some? ==> |found.value.bytes| == 4
  {
    HalfIsRead(data, at);
    WindowDecodes(Slice(data, at, at + 4), at, Half(data, at));
  }

  /** What the search makes of the template's code at offset `o` against that of the image at `at`. */
  function Compared(o: int, code: Code, at: int, found: Code): Option<set<Pair>> {
    if found.op.Unknown? || MnemonicOf(found.op) != MnemonicOf(code.op) then None
    else if code.literal.Some? then
      if found.half / 0x100 != code.half / 0x100 || found.literal.None? then None
      else if if InRam(code.literal.value) then !InRam(found.literal.value) else found.literal != code.literal then None
      else Some({(o + 2, at + 2)})
    else if found.op.BranchIf? && code.op.BranchIf? then
      Some({(o + 4 + code.op.distance, at + 4 + found.op.distance)} + {(o + 2, at + 2)})
    else if found.op.Branch? && code.op.Branch? then
      Some({(o + 4 + code.op.distance, at + 4 + found.op.distance)})
    else if found.half != code.half then None
    else if found.op.Return? || (found.op.Pop? && found.op.pcToo) then Some({})
    else Some({(o + 2, at + 2)})
  }

  /** A halfword with a meaning, and a pool word at most for a literal load. */
  predicate IsCode(c: Code) {
    0 <= c.half < 0x1_0000 && !c.op.Unknown?
  }

  lemma VisitIsComparison(p: Problem, o: int, code: Code, at: nat, found: Code)
    requires IsCode(code) && IsCode(found) && (code.literal.Some? <==> code.op.LoadLiteral?)
    requires o in p.items && p.items[o] == Item(HalfBytes(code.half), code.literal)
    requires Reference(p, o) == Some(InsnOf(code.half, code.op, p.entry + o)) && at + 2 <= |p.data|
    requires DecodeAt(p.decoder, p.data, at) == Some(InsnOf(found.half, found.op, at))
    requires found.literal == Literal(p.data, at)
    ensures Visit(p, (o, at)) == Compared(o, code, at, found)
  {
    assert HalfBytes(found.half)[1..] == [found.half / 0x100] && HalfBytes(code.half)[1..] == [code.half / 0x100];
    assert HalfBytes(found.half) == HalfBytes(code.half) <==> found.half == code.half;
  }

  /** What the tables say of one offset. */
  predicate IsListed(code: Code) {
    && IsCode(code) && Meaning(code.half) == code.op
    && (code.op.Pop? ==> code.op.pcToo) && (code.literal.Some? <==> code.op.LoadLiteral?)
  }

  predicate KindFits(o: int) {
    !OpAt(o).Unknown? && (OpAt(o).Pop? ==> OpAt(o).pcToo) && (LiteralAt(o).Some? <==> OpAt(o).LoadLiteral?)
  }

  lemma InverseKindsFit(o: int)
    requires IsOffset(o) && o < 84
    ensures KindFits(o)
  {
  }

  lemma ForwardKindsFit(o: int)
    requires IsOffset(o) && o >= 84
    ensures KindFits(o)
  {
  }

  lemma OffsetIsListed(o: int)
    requires IsOffset(o)
    ensures IsListed(TemplateCode(o))
  {
    HalvesFit(o);
    OpsAreMeant(o);
    if o < 84 {
      InverseKindsFit(o);
    } else {
      ForwardKindsFit(o);
    }
  }

  lemma ListedCompares(p: Problem, o: int, code: Code, at: nat)
    requires p.decoder == Decode && IsListed(code)
    requires o in p.items && p.items[o] == Item(HalfBytes(code.half), code.literal)
    ensures at + 2 <= |p.data| ==> Visit(p, (o, at)) == Compared(o, code, at, ImageCode(p.data, at))
    ensures at + 2 > |p.data| ==> Visit(p, (o, at)).None?
  {
    WindowDecodes(HalfBytes(code.half), p.entry + o, code.half);
    if at + 2 <= |p.data| {
      ImageDecodes(p.data, at);
      if !Meaning(Half(p.data, at)).Unknown? {
        VisitIsComparison(p, o, code, at, ImageCode(p.data, at));
      }
    }
  }

  /** The search on one offset and one place of the image. */
  lemma SearchCompares(p: Problem, o: int, at: nat)
    requires Native(p) && p.decoder == Decode && IsOffset(o)
    ensures at + 2 <= |p.data| ==> Visit(p, (o, at)) == Compared(o, TemplateCode(o), at, ImageCode(p.data, at))
    ensures at + 2 > |p.data| ==> Visit(p, (o, at)).None?
  {
    OffsetIsListed(o);
    ListedCompares(p, o, TemplateCode(o), at);
  }

  ghost predicate AllPlaced(places: map<int, int>, pairs: set<Pair>) {
    forall at :: at in pairs ==> GoesTo(places, at.1, at.0)
  }

  /** The literal load finds the word that stands for that of the template. */
  predicate FindsRenamed(ram: map<int, int>, code: Code, found: Code) {
    code.literal.Some? && InRam(code.literal.value) && found.literal.Some? ==>
      code.literal.value in ram && found.literal.value == ram[code.literal.value]
  }

  lemma OnePlaced(places: map<int, int>, a: int, at: int)
    ensures AllPlaced(places, {(a, at)}) <==> GoesTo(places, at, a)
  {
    assert (a, at) in {(a, at)};
  }

  lemma TwoPlaced(places: map<int, int>, a: int, at: int, b: int, bt: int)
    ensures AllPlaced(places, {(a, at)} + {(b, bt)}) <==> GoesTo(places, at, a) && GoesTo(places, bt, b)
  {
    assert (a, at) in {(a, at)} + {(b, bt)} && (b, bt) in {(a, at)} + {(b, bt)};
  }

  lemma CellsAreRam(o: int)
    requires LiteralAt(o).Some?
    ensures InRam(LiteralAt(o).value) <==> IsCell(LiteralAt(o).value)
  {
  }

  /** The cells of a renaming are the template's words in RAM. */
  ghost predicate Covers(ram: map<int, int>, literal: Option<word>) {
    literal.Some? ==> (InRam(literal.value) <==> literal.value as int in ram)
  }

  ghost predicate Accepts(places: map<int, int>, ram: map<int, int>, o: int, code: Code, at: int, found: Code) {
    var next := Compared(o, code, at, found);
    next.Some? && AllPlaced(places, next.value) && FindsRenamed(ram, code, found)
  }

  lemma LoadIff(places: map<int, int>, ram: map<int, int>, o: int, code: Code, at: int, found: Code)
    requires code.op.LoadLiteral? && code.literal.Some? && Covers(ram, code.literal)
    requires forall w :: w in ram ==> InRam(ram[w])
    requires found.op == code.op <==> found.op.LoadLiteral? && found.half / 0x100 == code.half / 0x100
    ensures Does(places, ram, o, code, at, found) <==> Accepts(places, ram, o, code, at, found)
  {
    OnePlaced(places, o + 2, at + 2);
  }

  lemma SameLoad(h: int, h0: int)
    requires 0 <= h0 < 0x1_0000 && Meaning(h0).LoadLiteral?
    ensures Meaning(h) == Meaning(h0) <==> Meaning(h).LoadLiteral? && h / 0x100 == h0 / 0x100
  {
    LiteralEncoding(h);
    LiteralEncoding(h0);
  }

  lemma LiteralEncoding(h: int)
    ensures Meaning(h).LoadLiteral? <==> 0x48 <= h / 0x100 < 0x50
    ensures Meaning(h).LoadLiteral? ==> Meaning(h).rd == h / 0x100 - 0x48
  {
  }

  lemma JumpIff(places: map<int, int>, ram: map<int, int>, o: int, code: Code, at: int, found: Code)
    requires (code.op.BranchIf? || code.op.Branch?) && code.literal.None?
    ensures Does(places, ram, o, code, at, found) <==> Accepts(places, ram, o, code, at, found)
  {
    if found.op.BranchIf? && code.op.BranchIf? {
      TwoPlaced(places, o + 4 + code.op.distance, at + 4 + found.op.distance, o + 2, at + 2);
    } else if found.op.Branch? && code.op.Branch? {
      OnePlaced(places, o + 4 + code.op.distance, at + 4 + found.op.distance);
    }
  }

  lemma PlainIff(places: map<int, int>, ram: map<int, int>, o: int, code: Code, at: int, found: Code)
    requires !code.op.BranchIf? && !code.op.Branch? && !code.op.LoadLiteral? && code.literal.None?
    requires !code.op.Unknown? && (code.op.Pop? ==> code.op.pcToo) && (found.half == code.half ==> found.op == code.op)
    ensures Does(places, ram, o, code, at, found) <==> Accepts(places, ram, o, code, at, found)
  {
    OnePlaced(places, o + 2, at + 2);
  }

  /** A copy is what the search accepts, with the successors in their places and the renamed word found. */
  lemma CopyIff(data: seq<byte>, places: map<int, int>, ram: map<int, int>, o: int, at: nat)
    requires IsOffset(o) && IsRenaming(ram)
    ensures IsCopy(data, places, ram, o, at) <==> Accepts(places, ram, o, TemplateCode(o), at, ImageCode(data, at))
  {
    OffsetIsListed(o);
    var code, found := TemplateCode(o), ImageCode(data, at);
    if code.literal.Some? {
      CellsAreRam(o);
      SameLoad(found.half, code.half);
      LoadIff(places, ram, o, code, at, found);
    } else if code.op.BranchIf? || code.op.Branch? {
      JumpIff(places, ram, o, code, at, found);
    } else {
      PlainIff(places, ram, o, code, at, found);
    }
  }

  // ---------------------------------------------------------------- the whole search

  /** Where control goes from an operation at an offset. */
  function After(op: Op, o: int): set<int> {
    match op
    case BranchIf(_, distance) => {o + 2, o + 4 + distance}
    case Branch(distance) => {o + 4 + distance}
    case Return => {}
    case Pop(_, _) => {}
    case _ => {o + 2}
  }

  /** An offset before this one from which control comes here; the two entries have none. */
  function Predecessor(o: int): int {
    if o == 144 then 124 else if o == 152 then 100 else if o == 154 then 76 else o - 2
  }

  lemma PredecessorLeadsHere(o: int)
    requires IsOffset(o) && o != 0 && o != FORWARD
    ensures IsOffset(Predecessor(o)) && Predecessor(o) < o && o in After(OpAt(Predecessor(o)), Predecessor(o))
  {
  }

  lemma PlacedInGraph(places: map<int, int>, pairs: set<Pair>)
    ensures AllPlaced(places, pairs) <==> pairs <= Graph(places)
  {
    forall at | at in pairs && GoesTo(places, at.1, at.0) ensures at in Graph(places) {
      assert at == (at.0, places[at.0]);
    }
  }

  lemma SuccessorsAreCompared(o: int, code: Code, at: int, found: Code, next: int, places: map<int, int>)
    requires IsListed(code) && next in After(code.op, o) && next in places
    requires Compared(o, code, at, found).Some? && AllPlaced(places, Compared(o, code, at, found).value)
    ensures (next, places[next]) in Compared(o, code, at, found).value
  {
    var pairs := Compared(o, code, at, found).value;
    if code.op.BranchIf? {
      var a, b := (o + 4 + code.op.distance, at + 4 + found.op.distance), (o + 2, at + 2);
      assert a in pairs && b in pairs;
    } else if code.op.Branch? {
      assert (o + 4 + code.op.distance, at + 4 + found.op.distance) in pairs;
    } else {
      assert (o + 2, at + 2) in pairs;
    }
  }

  /** The search passes the pair of an offset and its place, goes on within `b`, and relates words as `b` does. */
  ghost predicate Passes(p: Problem, b: Binding, at: Pair) {
    && Visit(p, at).Some? && Visit(p, at).value <= Graph(b.instructions)
    && (Role(p, at).Some? ==> Role(p, at).value in Graph(b.ram))
  }

  lemma RoleIff(p: Problem, ram: map<int, int>, o: int, at: nat)
    requires Native(p) && IsOffset(o) && at + 2 <= |p.data|
    ensures (Role(p, (o, at)).Some? ==> Role(p, (o, at)).value in Graph(ram))
       <==> FindsRenamed(ram, TemplateCode(o), ImageCode(p.data, at))
  {
    var role := Role(p, (o, at));
    if role.Some? && role.value.0 in ram && ram[role.value.0] == role.value.1 {
      assert role.value == (role.value.0, ram[role.value.0]);
    }
  }

  /** The search passes an offset and its place exactly when the place holds a copy. */
  lemma PassesIff(p: Problem, b: Binding, o: int, at: int)
    requires Native(p) && p.decoder == Decode && IsOffset(o) && IsRenaming(b.ram)
    ensures Passes(p, b, (o, at)) <==>
            0 <= at && at + 2 <= |p.data| && IsCopy(p.data, b.instructions, b.ram, o, at)
  {
    if 0 <= at {
      SearchCompares(p, o, at);
      if at + 2 <= |p.data| {
        CopyIff(p.data, b.instructions, b.ram, o, at);
        RoleIff(p, b.ram, o, at);
        if Visit(p, (o, at)).Some? {
          PlacedInGraph(b.instructions, Visit(p, (o, at)).value);
        }
      }
    }
  }

  lemma CopiesPass(p: Problem, b: Binding)
    requires Native(p) && p.decoder == Decode && b.instructions.Keys == Offsets() && IsRenaming(b.ram)
    ensures HoldsCopies(p.data, b.instructions, b.ram) <==>
            forall at :: at in Graph(b.instructions) ==> Passes(p, b, at)
  {
    forall o | o in b.instructions ensures IsOffset(o) && (o, b.instructions[o]) in Graph(b.instructions) {
    }
    forall o | o in b.instructions
      ensures Passes(p, b, (o, b.instructions[o])) <==>
              0 <= b.instructions[o] && b.instructions[o] + 2 <= |p.data| &&
              IsCopy(p.data, b.instructions, b.ram, o, b.instructions[o])
    {
      PassesIff(p, b, o, b.instructions[o]);
    }
  }

  lemma {:induction false} PlaceIsReached(p: Problem, b: Binding, c: set<Pair>, o: int)
    requires Native(p) && p.decoder == Decode && IsRelocation(p, b) && IsOffset(o)
    requires Roots(p) <= c && Closed(Next(p), c)
    ensures (o, b.instructions[o]) in c
    decreases if IsOffset(o) then o else 0
  {
    if o != 0 && o != FORWARD {
      PredecessorLeadsHere(o);
      var before := Predecessor(o);
      PlaceIsReached(p, b, c, before);
      SuccessorIsNext(p, b, before, o);
    }
  }

  lemma SuccessorIsNext(p: Problem, b: Binding, o: int, next: int)
    requires Native(p) && p.decoder == Decode && IsRelocation(p, b) && IsOffset(o) && IsOffset(next)
    requires next in After(OpAt(o), o)
    ensures (next, b.instructions[next]) in Next(p)((o, b.instructions[o]))
  {
    var at := b.instructions[o];
    OffsetIsListed(o);
    CopyIff(p.data, b.instructions, b.ram, o, at);
    SearchCompares(p, o, at);
    SuccessorsAreCompared(o, TemplateCode(o), at, ImageCode(p.data, at), next, b.instructions);
  }

  lemma PlacesAreReached(p: Problem, b: Binding)
    requires Native(p) && p.decoder == Decode && IsRelocation(p, b)
    ensures Reaches(Roots(p), Next(p), Graph(b.instructions))
  {
    var v, next := Graph(b.instructions), Next(p);
    CopiesPass(p, b);
    assert 0 in Offsets() && FORWARD in Offsets();
    assert (0, b.instructions[0]) in v && (FORWARD, b.instructions[FORWARD]) in v;
    forall at | at in v ensures next(at) <= v {
      assert Passes(p, b, at);
    }
    forall c | Roots(p) <= c && Closed(next, c) ensures v <= c {
      forall at | at in v ensures at in c {
        PlaceIsReached(p, b, c, at.0);
      }
    }
  }

  /** Each cell's address is loaded somewhere. */
  lemma CellHasLoad(cell: int) returns (o: int)
    requires IsCell(cell)
    ensures IsOffset(o) && OpAt(o).LoadLiteral? && LiteralAt(o).Some? && LiteralAt(o).value == cell && InRam(cell)
  {
    o := if cell == BOUNDARY0 then 0 else if cell == BOUNDARY1 then 18 else if cell == BOUNDARY2 then 38 else 72;
  }

  lemma CellIsLoaded(p: Problem, b: Binding, cell: int)
    requires Native(p) && p.decoder == Decode && IsRelocation(p, b) && cell in b.ram
    ensures (cell, b.ram[cell]) in Roles(p, Graph(b.instructions))
  {
    var o := CellHasLoad(cell);
    LoadHasRole(p, b, o, LiteralAt(o).value);
  }

  lemma LoadHasRole(p: Problem, b: Binding, o: int, cell: word)
    requires Native(p) && p.decoder == Decode && IsRelocation(p, b) && IsOffset(o) && OpAt(o).LoadLiteral?
    requires LiteralAt(o) == Some(cell) && cell as int in b.ram && InRam(cell)
    ensures (cell as int, b.ram[cell]) in Roles(p, Graph(b.instructions))
  {
    var at := (o, b.instructions[o]);
    assert at in Graph(b.instructions) && IsCopy(p.data, b.instructions, b.ram, o, at.1);
    CopyFinds(b, TemplateCode(o), o, at.1, ImageCode(p.data, at.1));
    assert p.items[o].literal == Some(cell);
    assert Role(p, at) == Some((cell as int, b.ram[cell]));
  }

  lemma CopyFinds(b: Binding, code: Code, o: int, at: int, found: Code)
    requires Does(b.instructions, b.ram, o, code, at, found) && code.op.LoadLiteral?
    ensures found.literal.Some? && code.literal.Some? && found.literal.value == Renamed(b.ram, code.literal.value)
  {
  }

  lemma RolesAreRenaming(p: Problem, b: Binding)
    requires Native(p) && p.decoder == Decode && IsRelocation(p, b)
    ensures Roles(p, Graph(b.instructions)) == Graph(b.ram)
  {
    CopiesPass(p, b);
    forall role | role in Graph(b.ram) ensures role in Roles(p, Graph(b.instructions)) {
      CellIsLoaded(p, b, role.0);
    }
    forall role | role in Roles(p, Graph(b.instructions)) ensures role in Graph(b.ram) {
      var at :| at in Graph(b.instructions) && Role(p, at) == Some(role);
      assert Passes(p, b, at);
    }
  }

  /** Relocated code is accepted, with the relocation as the result. */
  lemma RelocationIsBound(p: Problem, b: Binding)
    requires Native(p) && p.decoder == Decode && IsRelocation(p, b)
    ensures Qualifies(p, Graph(b.instructions)) && Roles(p, Graph(b.instructions)) == Graph(b.ram)
  {
    PlacesAreReached(p, b);
    RolesAreRenaming(p, b);
    PlacesMatch(p, b);
    OneToOne(b);
    GraphIsFunctional(b.instructions);
    ItemsAreOffsets(p);
  }

  lemma PlacesMatch(p: Problem, b: Binding)
    requires Native(p) && p.decoder == Decode && IsRelocation(p, b)
    ensures forall at :: at in Graph(b.instructions) ==> Visit(p, at).Some?
  {
    CopiesPass(p, b);
    forall at | at in Graph(b.instructions) ensures Visit(p, at).Some? {
      assert Passes(p, b, at);
    }
  }

  lemma OneToOne(b: Binding)
    requires NoAliases(b.instructions) && NoAliases(b.ram)
    ensures Functional(Graph(b.instructions)) && Injective(Graph(b.instructions))
    ensures Functional(Graph(b.ram)) && Injective(Graph(b.ram))
  {
    GraphIsFunctional(b.instructions);
    GraphIsFunctional(b.ram);
    InjectiveIffNoAliases(b.instructions);
    InjectiveIffNoAliases(b.ram);
  }

  lemma ItemsAreOffsets(p: Problem)
    requires Native(p)
    ensures p.items.Keys == Offsets()
  {
  }

  lemma RoleIsCell(p: Problem, at: Pair)
    requires Native(p) && Visit(p, at).Some? && Role(p, at).Some?
    ensures IsCell(Role(p, at).value.0) && InRam(Role(p, at).value.1)
  {
    CellsAreRam(at.0);
  }

  lemma BoundCells(p: Problem, b: Binding)
    requires Native(p) && p.decoder == Decode
    requires Qualifies(p, Graph(b.instructions)) && Roles(p, Graph(b.instructions)) == Graph(b.ram)
    ensures IsRenaming(b.ram)
  {
    var v := Graph(b.instructions);
    InjectiveIffNoAliases(b.ram);
    forall cell | IsCell(cell) ensures cell in b.ram {
      BoundCell(p, v, cell);
    }
    forall cell | cell in b.ram ensures IsCell(cell) && InRam(b.ram[cell]) {
      assert (cell, b.ram[cell]) in Roles(p, v);
      var at :| at in v && Role(p, at) == Some((cell, b.ram[cell]));
      RoleIsCell(p, at);
    }
  }

  lemma BoundCell(p: Problem, v: set<Pair>, cell: int)
    requires Native(p) && Qualifies(p, v) && IsCell(cell)
    ensures exists found :: (cell, found) in Roles(p, v)
  {
    var o := CellHasLoad(cell);
    assert o in p.items.Keys;
    var at :| at in v && at.0 == o;
    VisitedLoadHasRole(p, at, LiteralAt(o).value);
    assert (cell, Role(p, at).value.1) in Roles(p, v);
  }

  lemma VisitedLoadHasRole(p: Problem, at: Pair, cell: word)
    requires Visit(p, at).Some? && p.items[at.0].literal == Some(cell) && InRam(cell)
    ensures Role(p, at).Some? && Role(p, at).value.0 == cell
  {
  }

  /** What the search accepts is a relocation. */
  lemma BoundIsRelocated(p: Problem, b: Binding)
    requires Native(p) && p.decoder == Decode
    requires Qualifies(p, Graph(b.instructions)) && Roles(p, Graph(b.instructions)) == Graph(b.ram)
    ensures IsRelocation(p, b)
  {
    var v := Graph(b.instructions);
    BoundCells(p, b);
    GraphIsFunctional(b.instructions);
    InjectiveIffNoAliases(b.instructions);
    ItemsAreOffsets(p);
    forall at | at in v ensures Passes(p, b, at) {
      assert Next(p)(at) <= v;
    }
    CopiesPass(p, b);
    assert (0, p.inverse) in v && (FORWARD, p.forward) in v;
  }

  /** The search on the classic template: it finds the one relocation of the leaves, or there is none. */
  method BindClassic(p: Problem) returns (r: Option<Binding>)
    requires Native(p) && p.decoder == Decode
    ensures r.Some? <==> exists b :: IsRelocation(p, b)
    ensures r.Some? ==> IsRelocation(p, r.value) && forall b :: IsRelocation(p, b) ==> b == r.value
  {
    r := BindLeaves(p);
    if r.Some? {
      BoundIsRelocated(p, r.value);
    }
    forall b | IsRelocation(p, b) ensures r == Some(b) {
      RelocationIsBound(p, b);
      GraphDetermines(r.value.instructions, b.instructions);
      GraphDetermines(r.value.ram, b.ram);
    }
  }
}
