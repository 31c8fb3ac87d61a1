/**
 The binding succeeds at all: every image that carries the classic template in one piece, with pool words that
 rename its RAM cells, is bound, each instruction to its own copy and each cell to the word that stands for it;
 and there is such an image for every renaming. The disassembler is that of `ThumbDecoder`. The image holds the
 template at address 2, so that template and source differ in every address, and its eight pool words from 0x2c8
 on, where the literal loads of both leaves look for them.
 */
module ClassicInstance {
  import opened Images
  import opened Disassembly
  import opened Graphs
  import opened Thumb
  import opened ClassicMapping
  import opened ClassicTemplate
  import opened ThumbDecoder
  import opened ClassicRelocation

  /** The template lies at `base`, and its literal loads find the words that stand for the template's. */
  ghost predicate CarriesTemplate(data: seq<byte>, base: nat, ram: map<int, int>) {
    && base + 166 <= |data| && IsRenaming(ram)
    && (forall o: nat {:trigger HalfAt(o)} :: IsOffset(o) ==> Half(data, base + o) == HalfAt(o))
    && forall o: nat {:trigger LiteralAt(o)} :: IsOffset(o) && LiteralAt(o).Some? ==>
         Literal(data, base + o).Some? && Literal(data, base + o).value == Renamed(ram, LiteralAt(o).value)
  }

  ghost predicate IsInstance(p: Problem, base: nat, ram: map<int, int>) {
    Native(p) && p.decoder == Decode && CarriesTemplate(p.data, base, ram) && p.inverse == base &&
    p.forward == base + FORWARD
  }

  /** Each offset at its distance from `base`. */
  function Copies(base: nat): map<int, int> {
    map o | o in Offsets() :: base + o
  }

  /** Control goes on to another offset. */
  predicate StaysInside(op: Op, o: int) {
    && (op.BranchIf? || op.Branch? ==> IsOffset(o + 4 + op.distance))
    && (op.Branch? || op.Return? || op.Pop? || IsOffset(o + 2))
  }

  lemma InverseStaysInside(o: int)
    requires IsOffset(o) && o < 84
    ensures StaysInside(OpAt(o), o)
  {
  }

  lemma ForwardStaysInside(o: int)
    requires IsOffset(o) && o >= 84
    ensures StaysInside(OpAt(o), o)
  {
  }

  lemma CopyDoes(base: nat, ram: map<int, int>, o: int, code: Code, found: Code)
    requires IsListed(code) && IsOffset(o) && found.half == code.half && found.op == code.op
    requires StaysInside(code.op, o)
    requires code.literal.Some? ==> found.literal.Some? && found.literal.value == Renamed(ram, code.literal.value)
    ensures Does(Copies(base), ram, o, code, base + o, found)
  {
    forall next | IsOffset(next) ensures GoesTo(Copies(base), base + next, next) {
      assert next in Offsets();
    }
  }

  lemma CopyIsThere(data: seq<byte>, base: nat, ram: map<int, int>, o: int)
    requires CarriesTemplate(data, base, ram) && IsOffset(o)
    ensures IsCopy(data, Copies(base), ram, o, base + o)
  {
    OffsetIsListed(o);
    if o < 84 {
      InverseStaysInside(o);
    } else {
      ForwardStaysInside(o);
    }
    CopyDoes(base, ram, o, TemplateCode(o), ImageCode(data, base + o));
  }

  /** An image that carries the template is bound to it as it stands. */
  lemma TemplateIsBound(p: Problem, base: nat, ram: map<int, int>)
    requires IsInstance(p, base, ram)
    ensures IsRelocation(p, Binding(Copies(base), ram))
    ensures Qualifies(p, Graph(Copies(base))) && Roles(p, Graph(Copies(base))) == Graph(ram)
  {
    var places := Copies(base);
    assert 0 in Offsets() && FORWARD in Offsets();
    forall o | o in places
      ensures 0 <= places[o] && places[o] + 2 <= |p.data| && IsCopy(p.data, places, ram, o, places[o])
    {
      CopyIsThere(p.data, base, ram, o);
    }
    RelocationIsBound(p, Binding(places, ram));
  }

  // ---------------------------------------------------------------- such an image

  /** The template's words. */
  function PoolAt(a: int): word {
    match a
    case 0x2c8 => BOUNDARY0
    case 0x2cc => 0x03ff_ffff
    case 0x2d0 => BOUNDARY1
    case 0x2d4 => 0x07ff_ffff
    case 0x2d8 => BOUNDARY2
    case 0x2dc => 0x0bff_ffff
    case 0x2e0 => CACHE
    case 0x2e4 => 0xfff0_0001
    case _ => 0
  }

  /** The words of a pool with renamed cells; `Wrap` changes no address in RAM. */
  function RenamedPoolAt(ram: map<int, int>, a: int): word {
    Wrap(Renamed(ram, PoolAt(a)))
  }

  /** The template at address 2, its pool from 0x2c8 on. */
  function ByteAt(ram: map<int, int>, a: int): byte {
    if 2 <= a < 168 then HalfByte(a / 2 * 2 - 2, a % 2) else ByteOf(RenamedPoolAt(ram, a / 4 * 4), a % 4)
  }

  function HalfByte(o: int, i: int): byte {
    HalvesFit(o);
    if i == 0 then HalfAt(o) % 0x100 else HalfAt(o) / 0x100
  }

  function Carrier(ram: map<int, int>): seq<byte> {
    seq(0x2e8, (a: int) => ByteAt(ram, a))
  }

  lemma ByteOfCarrier(data: seq<byte>, ram: map<int, int>, a: nat)
    requires Carrier(ram) <= data && a < |Carrier(ram)|
    ensures data[a] == ByteAt(ram, a)
  {
  }

  lemma EvenByte(ram: map<int, int>, o: nat)
    requires IsOffset(o)
    ensures ByteAt(ram, 2 + o) == HalfByte(o, 0) && ByteAt(ram, 3 + o) == HalfByte(o, 1)
  {
    EvenAddress(o);
  }

  lemma EvenAddress(o: nat)
    requires o % 2 == 0
    ensures (2 + o) / 2 * 2 - 2 == o && (2 + o) % 2 == 0 && (3 + o) / 2 * 2 - 2 == o && (3 + o) % 2 == 1
  {
  }

  lemma CarrierHalves(data: seq<byte>, ram: map<int, int>, o: nat)
    requires Carrier(ram) <= data && IsOffset(o)
    ensures Half(data, 2 + o) == HalfAt(o)
  {
    ByteOfCarrier(data, ram, 2 + o);
    ByteOfCarrier(data, ram, 3 + o);
    EvenByte(ram, o);
    HalvesFit(o);
  }

  lemma CarrierByte(data: seq<byte>, ram: map<int, int>, a: nat, i: nat, w: word)
    requires Carrier(ram) <= data && 168 <= a && a + 4 <= |Carrier(ram)| && a % 4 == 0
    requires i < 4 && w == RenamedPoolAt(ram, a)
    ensures data[a + i] == ByteOf(w, i)
  {
    ByteOfCarrier(data, ram, a + i);
    assert (a + i) / 4 * 4 == a && (a + i) % 4 == i;
  }

  lemma CarrierWord(data: seq<byte>, ram: map<int, int>, a: nat)
    requires Carrier(ram) <= data && 168 <= a && a + 4 <= |Carrier(ram)| && a % 4 == 0
    ensures Word(data, a) == RenamedPoolAt(ram, a)
  {
    var w := RenamedPoolAt(ram, a);
    CarrierByte(data, ram, a, 0, w);
    CarrierByte(data, ram, a, 1, w);
    CarrierByte(data, ram, a, 2, w);
    CarrierByte(data, ram, a, 3, w);
    WordOfBytes(w);
  }

  lemma LiteralsLoad(o: nat)
    requires IsOffset(o) && LiteralAt(o).Some?
    ensures HalfAt(o) / 0x800 == 9 && LiteralAt(o).value != 0
  {
  }

  lemma InverseLiteralsFind(o: nat)
    requires IsOffset(o) && LiteralAt(o).Some? && o < FORWARD
    ensures LiteralAt(o) == Some(PoolAt(PoolAddress(2 + o, HalfAt(o))))
  {
    match o
    case 0 => assert PoolAddress(2, HalfAt(0)) == 0x2c8;
    case 16 => assert PoolAddress(18, HalfAt(16)) == 0x2cc;
    case 18 => assert PoolAddress(20, HalfAt(18)) == 0x2d0;
    case 36 => assert PoolAddress(38, HalfAt(36)) == 0x2d4;
    case 38 => assert PoolAddress(40, HalfAt(38)) == 0x2d8;
    case 56 => assert PoolAddress(58, HalfAt(56)) == 0x2dc;
    case _ => assert false;
  }

  lemma ForwardLiteralsFind(o: nat)
    requires IsOffset(o) && LiteralAt(o).Some? && o >= FORWARD
    ensures LiteralAt(o) == Some(PoolAt(PoolAddress(2 + o, HalfAt(o))))
  {
    match o
    case 64 => assert PoolAddress(66, HalfAt(64)) == 0x2c8;
    case 72 => assert PoolAddress(74, HalfAt(72)) == 0x2e0;
    case 84 => assert PoolAddress(86, HalfAt(84)) == 0x2e4;
    case 86 => assert PoolAddress(88, HalfAt(86)) == 0x2d0;
    case 92 => assert PoolAddress(94, HalfAt(92)) == 0x2cc;
    case 108 => assert PoolAddress(110, HalfAt(108)) == 0x2d8;
    case 122 => assert PoolAddress(124, HalfAt(122)) == 0x2d4;
    case 138 => assert PoolAddress(140, HalfAt(138)) == 0x2dc;
    case _ => assert false;
  }

  lemma LiteralsFind(o: nat)
    requires IsOffset(o) && LiteralAt(o).Some?
    ensures LiteralAt(o) == Some(PoolAt(PoolAddress(2 + o, HalfAt(o))))
  {
    if o < FORWARD {
      InverseLiteralsFind(o);
    } else {
      ForwardLiteralsFind(o);
    }
  }

  lemma PoolWords(a: int)
    requires PoolAt(a) != 0
    ensures 0x2c8 <= a <= 0x2e4 && a % 4 == 0
  {
  }

  lemma RenamedFits(ram: map<int, int>, a: int)
    requires IsRenaming(ram)
    ensures RenamedPoolAt(ram, a) == Renamed(ram, PoolAt(a))
  {
  }

  lemma CarrierLiteral(data: seq<byte>, ram: map<int, int>, o: nat)
    requires Carrier(ram) <= data && IsRenaming(ram) && IsOffset(o) && LiteralAt(o).Some?
    ensures Literal(data, 2 + o).Some? && Literal(data, 2 + o).value == Renamed(ram, LiteralAt(o).value)
  {
    CarrierHalves(data, ram, o);
    LiteralsLoad(o);
    LiteralsFind(o);
    var a := PoolAddress(2 + o, HalfAt(o));
    PoolWords(a);
    CarrierWord(data, ram, a);
    RenamedFits(ram, a);
  }

  lemma CarrierCarries(data: seq<byte>, ram: map<int, int>)
    requires Carrier(ram) <= data && IsRenaming(ram)
    ensures CarriesTemplate(data, 2, ram)
  {
    forall o: nat | IsOffset(o) ensures Half(data, 2 + o) == HalfAt(o) {
      CarrierHalves(data, ram, o);
    }
    forall o: nat | IsOffset(o) && LiteralAt(o).Some?
      ensures Literal(data, 2 + o).Some? && Literal(data, 2 + o).value == Renamed(ram, LiteralAt(o).value)
    {
      CarrierLiteral(data, ram, o);
    }
  }

  /**
   There is a problem with this template that the binding solves, for every renaming of the cells and whatever
   follows the template in the image.
   */
  lemma BindingExists(entry: int, ram: map<int, int>, rest: seq<byte>) returns (p: Problem, v: set<Pair>)
    requires IsRenaming(ram)
    ensures Native(p) && p.entry == entry && Qualifies(p, v) && Roles(p, v) == Graph(ram)
    ensures p.data == Carrier(ram) + rest && p.decoder == Decode && p.inverse == 2
  {
    var items := map o | o in Offsets() :: Item(HalfBytesAt(o), LiteralAt(o));
    p := Problem(Carrier(ram) + rest, Decode, entry, items, 2, 2 + FORWARD);
    DecodeIsExact();
    CarrierCarries(p.data, ram);
    v := Graph(Copies(2));
    TemplateIsBound(p, 2, ram);
  }

  function HalfBytesAt(o: int): seq<byte> {
    HalvesFit(o);
    HalfBytes(HalfAt(o))
  }
}
