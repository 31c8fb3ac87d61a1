/**
 The template followed on its own: an instruction is taken from the table of operations, and only what the
 leaves depend on is kept of the machine. A walk that gets somewhere is a run of the template that keeps the
 address discipline of `LeafSimulation`, whatever problem the template is part of.
 */
module ClassicWalk {
  import opened Images
  import opened Thumb
  import opened Runs
  import opened ClassicMapping
  import opened LeafSimulation
  import opened ClassicTemplate

  /** What the words that may be loaded hold. */
  type View = map<(int, int), word>

  ghost predicate Shows(m: Memory, view: View) {
    && view.Keys == CELLS
    && forall a, k {:trigger WordAt(m, Near(a, k))} :: (a, k) in view ==> WordAt(m, Near(a, k)) == view[(a, k)]
  }

  /**
   Where a walk is: the low registers, which of them hold RAM addresses, the flags if they come from a
   comparison, and the two registers that were saved on entry.
   */
  datatype Walker = Walker(pc: nat, regs: seq<word>, tags: Tags, flags: Option<Flags>, saved: Option<(word, word)>,
                           returned: bool)

  function Entry(pc: nat, regs: seq<word>): Walker {
    Walker(pc, regs, map[], None, None, false)
  }

  /** The next instruction, after `rd` was set. */
  function Onward(w: Walker, rd: nat, value: word, tags: Tags): Walker
    requires rd < |w.regs|
  {
    w.(pc := w.pc + 2, regs := w.regs[rd := value], tags := tags)
  }

  predicate Untagged(x: Source, tags: Tags) {
    x.Register? ==> x.number < 8 && x.number !in tags
  }

  /** The register holds a number from now on. */
  function Drop(tags: Tags, r: nat): (rest: Tags)
    ensures rest == tags - {r}
  {
    if r in tags then tags - {r} else assert tags - {r} == tags; tags
  }

  function Calculate(w: Walker, kind: Kind, dest: Option<nat>, left: Source, right: Source): Option<Walker>
    requires |w.regs| == 8
  {
    if !Untagged(left, w.tags) || !Untagged(right, w.tags) then None
    else
      var a, b := Read(w.regs, left), Read(w.regs, right);
      if dest.None? then
        if kind.Subtract? then Some(w.(pc := w.pc + 2, flags := Some(Flags(a == b, a >= b)))) else None
      else if dest.value < 8 then
        Some(Onward(w, dest.value, Result(kind, a, b), Drop(w.tags, dest.value)).(flags := None))
      else None
  }

  function Jump(w: Walker, distance: int): Option<Walker> {
    if w.pc + 4 + distance >= 0 then Some(w.(pc := w.pc + 4 + distance)) else None
  }

  /** One operation; None when the leaves do without it. */
  function Follow(view: View, w: Walker, op: Op, literal: Option<word>): Option<Walker>
    requires |w.regs| == 8
  {
    match op
    case LoadLiteral(rd) =>
      if rd < 8 && literal.Some? then
        var value := literal.value;
        Some(Onward(w, rd, value, if InRam(value) then w.tags[rd := value] else Drop(w.tags, rd)))
      else None
    case LoadWord(rd, rb, offset) =>
      if rd < 8 && rb < 8 && rb in w.tags && (w.tags[rb] as int, offset as int) in view then
        Some(Onward(w, rd, view[(w.tags[rb] as int, offset as int)], Drop(w.tags, rd)))
      else None
    case Alu(kind, dest, left, right) => Calculate(w, kind, dest, left, right)
    case Push(list, linkToo) =>
      if list == 0x30 && linkToo && w.saved.None? && 4 !in w.tags && 5 !in w.tags then
        Some(w.(pc := w.pc + 2, saved := Some((w.regs[4], w.regs[5]))))
      else None
    case Pop(list, pcToo) =>
      if list == 0x30 && pcToo && w.saved.Some? then
        Some(w.(regs := w.regs[4 := w.saved.value.0][5 := w.saved.value.1], tags := w.tags - {4, 5}, saved := None,
                returned := true))
      else None
    case BranchIf(condition, distance) =>
      if w.flags.None? || Holds(condition, w.flags.value).None? then None
      else if Holds(condition, w.flags.value).value then Jump(w, distance)
      else Some(w.(pc := w.pc + 2))
    case Branch(distance) => Jump(w, distance)
    case Return => if w.saved.None? then Some(w.(returned := true)) else None
    case _ => None
  }

  /** One instruction of the template. */
  function Walk(view: View, w: Walker): Option<Walker> {
    if |w.regs| != 8 || w.returned || !IsOffset(w.pc) then None
    else Follow(view, w, OpAt(w.pc), LiteralAt(w.pc))
  }

  function Walking(view: View): Walker -> Option<Walker> {
    w => Walk(view, w)
  }

  /** `n` instructions. */
  function Walks(view: View, w: Walker, n: nat): Option<Walker> {
    Run(Walking(view), w, n)
  }

  lemma WalkTwice(view: View, w: Walker, w1: Walker, w2: Walker)
    requires Walk(view, w) == Some(w1) && Walk(view, w1) == Some(w2)
    ensures Walks(view, w, 2) == Some(w2)
  {
    assert Run(Walking(view), w1, 1) == Some(w2);
  }

  lemma WalkThrice(view: View, w: Walker, w1: Walker, w2: Walker, w3: Walker)
    requires Walk(view, w) == Some(w1) && Walk(view, w1) == Some(w2) && Walk(view, w2) == Some(w3)
    ensures Walks(view, w, 3) == Some(w3)
  {
    WalkTwice(view, w1, w2, w3);
  }

  /** Two walks one after the other. */
  lemma WalkOn(view: View, w: Walker, n: nat, w1: Walker, m: nat, w2: Walker)
    requires Walks(view, w, n) == Some(w1) && Walks(view, w1, m) == Some(w2)
    ensures Walks(view, w, n + m) == Some(w2)
  {
    RunOn(Walking(view), w, n, w1, m);
  }

  // ---------------------------------------------------------------- walks are runs

  /** The machine that a walk stands for, entered in state `s`. */
  ghost predicate Renders(view: View, s: State, w: Walker, c: Tracked) {
    var t := c.config.state;
    && s.Valid() && t.Valid() && Shows(s.memory, view)
    && t.regs == w.regs && c.tags == w.tags && t.link == s.link && t.memory == s.memory && t.stores == s.stores
    && t.stack == Saved(w.saved, s)
    && (w.flags.Some? ==> t.flags == w.flags.value)
    && (if w.returned then c.config.Returned? else c.config == Running(w.pc, t))
    && forall r :: r in w.tags ==> r < 8 && w.tags[r] == w.regs[r]
  }

  function Saved(saved: Option<(word, word)>, s: State): seq<word> {
    if saved.None? then s.stack else [saved.value.0] + ([saved.value.1] + ([s.link] + s.stack))
  }

  lemma PlainStep(node: Node, o: nat, op: Op, literal: Option<word>, s: State, tags: Tags)
    requires Presents(node, o, op, literal) && Plain(op) && s.Valid() && Perform(op, literal, s).Some?
    ensures Step(node, o, s) == Some(Running(o + 2, Perform(op, literal, s).value))
    ensures TrackNode(node, tags, CELLS) == Track(op, literal, tags, CELLS)
  {
  }

  lemma StepOf(p: Problem, c: Tracked, node: Node, config: Config, tags: Tags)
    requires c.config.Running? && c.config.state.Valid() && TemplateNode(p, c.config.pc) == Some(node)
    requires Step(node, c.config.pc, c.config.state) == Some(config) && TrackNode(node, c.tags, CELLS) == Some(tags)
    ensures TemplateStep(p, CELLS, c) == Some(Tracked(config, tags))
  {
  }

  /** What a step of the walk and a step of the machine must have in common. */
  ghost predicate Keeps(view: View, s: State, w: Walker, node: Node, pc: nat, t: State, tags: Tags) {
    && t.Valid() && Step(node, pc, t).Some? && TrackNode(node, tags, CELLS).Some?
    && Renders(view, s, w, Tracked(Step(node, pc, t).value, TrackNode(node, tags, CELLS).value))
  }

  /** A walker on its way, with an operation it can follow, and the machine it stands for. */
  ghost predicate Facing(view: View, s: State, w: Walker, op: Op, literal: Option<word>, t: State) {
    && Renders(view, s, w, Tracked(Running(w.pc, t), w.tags)) && !w.returned
    && |w.regs| == 8 && Follow(view, w, op, literal).Some?
  }

  /** Performing the operation, the machine goes where the walker goes. */
  ghost predicate Parallel(view: View, s: State, w: Walker, op: Op, literal: Option<word>, t: State) {
    && |w.regs| == 8 && Follow(view, w, op, literal).Some?
    && t.Valid() && Perform(op, literal, t).Some? && Track(op, literal, w.tags, CELLS).Some?
    && Renders(view, s, Follow(view, w, op, literal).value,
               Tracked(Running(w.pc + 2, Perform(op, literal, t).value), Track(op, literal, w.tags, CELLS).value))
  }

  lemma LiteralsParallel(view: View, s: State, w: Walker, op: Op, literal: Option<word>, t: State)
    requires Facing(view, s, w, op, literal, t) && op.LoadLiteral?
    ensures Parallel(view, s, w, op, literal, t)
  {
  }

  lemma LoadsParallel(view: View, s: State, w: Walker, op: Op, literal: Option<word>, t: State)
    requires Facing(view, s, w, op, literal, t) && op.LoadWord?
    ensures Parallel(view, s, w, op, literal, t)
  {
    assert WordAt(s.memory, Near(w.tags[op.rb], op.offset)) == view[(w.tags[op.rb] as int, op.offset as int)];
  }

  lemma AluParallel(view: View, s: State, w: Walker, op: Op, literal: Option<word>, t: State)
    requires Facing(view, s, w, op, literal, t) && op.Alu?
    ensures Parallel(view, s, w, op, literal, t)
  {
    assert w.tags - {} == w.tags;
  }

  lemma PushParallel(view: View, s: State, w: Walker, op: Op, literal: Option<word>, t: State)
    requires Facing(view, s, w, op, literal, t) && op.Push?
    ensures Parallel(view, s, w, op, literal, t)
  {
    ListedPair(t.regs, 0x30);
    PushedPair(t, 0x30, literal);
  }

  lemma PlainKeeps(view: View, s: State, w: Walker, node: Node, op: Op, literal: Option<word>, t: State)
    requires Parallel(view, s, w, op, literal, t) && Plain(op) && Presents(node, w.pc, op, literal)
    ensures Keeps(view, s, Follow(view, w, op, literal).value, node, w.pc, t, w.tags)
  {
    PlainStep(node, w.pc, op, literal, t, w.tags);
  }

  /** The pop of the saved registers and the return address. */
  lemma PopReturns(node: Node, o: nat, literal: Option<word>, t: State, a: word, b: word, link: word, rest: seq<word>)
    requires Presents(node, o, Op.Pop(0x30, true), literal) && t.Valid() && t.stack == [a] + ([b] + ([link] + rest))
    ensures Step(node, o, t) == Some(Returned(t.(regs := t.regs[4 := a][5 := b], stack := rest)))
  {
    PoppedPair(t.regs, a, b, [link] + rest, 0x30);
    assert ([link] + rest)[1..] == rest;
  }

  lemma PopKeeps(view: View, s: State, w: Walker, node: Node, op: Op, literal: Option<word>, t: State)
    requires Facing(view, s, w, op, literal, t) && op.Pop? && Presents(node, w.pc, op, literal)
    ensures Keeps(view, s, Follow(view, w, op, literal).value, node, w.pc, t, w.tags)
  {
    PopReturns(node, w.pc, literal, t, w.saved.value.0, w.saved.value.1, s.link, s.stack);
    ListedPair(t.regs, 0x30);
    assert w.tags - Listed(0x30) == w.tags - {4, 5};
  }

  lemma JumpKeeps(view: View, s: State, w: Walker, node: Node, op: Op, literal: Option<word>, t: State)
    requires Facing(view, s, w, op, literal, t) && Presents(node, w.pc, op, literal)
    requires op.BranchIf? || op.Branch? || op.Return?
    ensures Keeps(view, s, Follow(view, w, op, literal).value, node, w.pc, t, w.tags)
  {
  }

  /** Whatever the operation is, the step of the machine keeps to the walk. */
  lemma FollowKeeps(view: View, s: State, w: Walker, node: Node, op: Op, literal: Option<word>, t: State)
    requires Facing(view, s, w, op, literal, t) && Presents(node, w.pc, op, literal)
    ensures Keeps(view, s, Follow(view, w, op, literal).value, node, w.pc, t, w.tags)
  {
    if op.Pop? {
      PopKeeps(view, s, w, node, op, literal, t);
    } else if Plain(op) {
      match op {
        case LoadLiteral(_) => LiteralsParallel(view, s, w, op, literal, t);
        case LoadWord(_, _, _) => LoadsParallel(view, s, w, op, literal, t);
        case Alu(_, _, _, _) => AluParallel(view, s, w, op, literal, t);
        case Push(_, _) => PushParallel(view, s, w, op, literal, t);
      }
      PlainKeeps(view, s, w, node, op, literal, t);
    } else {
      JumpKeeps(view, s, w, node, op, literal, t);
    }
  }

  /** One instruction walked is one instruction of the template run. */
  lemma WalkIsStep(p: Problem, view: View, s: State, w: Walker, c: Tracked) returns (c': Tracked)
    requires Native(p) && Renders(view, s, w, c) && Walk(view, w).Some?
    ensures TemplateStep(p, CELLS, c) == Some(c') && Renders(view, s, Walk(view, w).value, c')
  {
    NodeAt(p, w.pc);
    var node, t := TemplateNode(p, w.pc).value, c.config.state;
    FollowKeeps(view, s, w, node, OpAt(w.pc), LiteralAt(w.pc), t);
    c' := Tracked(Step(node, w.pc, t).value, TrackNode(node, w.tags, CELLS).value);
    StepOf(p, c, node, c'.config, c'.tags);
  }

  ghost function Rendering(view: View, s: State): (Walker, Tracked) -> bool {
    (w, c) => Renders(view, s, w, c)
  }

  lemma WalksSimulate(p: Problem, view: View, s: State)
    requires Native(p)
    ensures Simulates(Walking(view), OnTemplate(p, CELLS), Rendering(view, s))
  {
    forall w, c | Rendering(view, s)(w, c) && Walking(view)(w).Some?
      ensures OnTemplate(p, CELLS)(c).Some?
      ensures Rendering(view, s)(Walking(view)(w).value, OnTemplate(p, CELLS)(c).value)
    {
      var c' := WalkIsStep(p, view, s, w, c);
    }
  }

  /** A walk is a run of the template. */
  lemma WalkIsRun(p: Problem, view: View, s: State, w: Walker, c: Tracked, n: nat, w': Walker) returns (c': Tracked)
    requires Native(p) && Renders(view, s, w, c) && Walks(view, w, n) == Some(w')
    ensures Run(OnTemplate(p, CELLS), c, n) == Some(c') && Renders(view, s, w', c')
  {
    WalksSimulate(p, view, s);
    assert Rendering(view, s)(w, c);
    RunsSimulate(Walking(view), OnTemplate(p, CELLS), Rendering(view, s), w, c, n);
    c' := Run(OnTemplate(p, CELLS), c, n).value;
    assert Rendering(view, s)(w', c');
  }

  // ---------------------------------------------------------------- the stack instructions

  /** The register list of both stack instructions: r4 and r5. */
  lemma ListedPair(regs: seq<word>, list: nat)
    requires |regs| == 8 && list == 0x30
    ensures PushList(regs, list, 0) == [regs[4], regs[5]]
    ensures forall r: nat :: r in Listed(list) <==> r == 4 || r == 5
  {
    Powers();
    assert PushList(regs, list, 6) == [];
    assert PushList(regs, list, 4) == [regs[4]] + ([regs[5]] + []);
  }

  lemma Powers()
    ensures Power(0) == 1 && Power(1) == 2 && Power(2) == 4 && Power(3) == 8
    ensures Power(4) == 16 && Power(5) == 32 && Power(6) == 64 && Power(7) == 128
  {
  }

  lemma PushedPair(s: State, list: nat, literal: Option<word>)
    requires s.Valid() && list == 0x30
    ensures Perform(Push(list, true), literal, s) ==
            Some(s.(stack := [s.regs[4]] + ([s.regs[5]] + ([s.link] + s.stack))))
  {
    ListedPair(s.regs, list);
    assert PushList(s.regs, list, 0) + [s.link] + s.stack == [s.regs[4]] + ([s.regs[5]] + ([s.link] + s.stack));
  }

  /** Registers that are not in the list are not popped. */
  lemma PopSkips(regs: seq<word>, stack: seq<word>, list: nat, n: nat)
    requires |regs| == 8 && n < 8 && list / Power(n) % 2 == 0
    ensures PopList(regs, stack, list, n) == PopList(regs, stack, list, n + 1)
  {
  }

  lemma PopTakes(regs: seq<word>, top: word, stack: seq<word>, list: nat, n: nat)
    requires |regs| == 8 && n < 8 && list / Power(n) % 2 == 1
    ensures PopList(regs, [top] + stack, list, n) == PopList(regs[n := top], stack, list, n + 1)
  {
    assert ([top] + stack)[1..] == stack;
  }

  lemma PoppedPair(regs: seq<word>, a: word, b: word, rest: seq<word>, list: nat)
    requires |regs| == 8 && list == 0x30
    ensures PopList(regs, [a] + ([b] + rest), list, 0) == Some((regs[4 := a][5 := b], rest))
  {
    Powers();
    var stack, after := [a] + ([b] + rest), regs[4 := a][5 := b];
    PopSkips(regs, stack, list, 0);
    PopSkips(regs, stack, list, 1);
    PopSkips(regs, stack, list, 2);
    PopSkips(regs, stack, list, 3);
    PopTakes(regs, a, [b] + rest, list, 4);
    PopTakes(regs[4 := a], b, rest, list, 5);
    PopSkips(after, rest, list, 6);
    PopSkips(after, rest, list, 7);
  }
}
