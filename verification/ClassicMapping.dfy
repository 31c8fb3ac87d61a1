/**
 Binding of the classic native address leaves: one template control-flow graph
 matched against source code up to the place of its blocks and of its RAM cells.
 */
module ClassicMapping {
  import opened Images
  import opened Disassembly
  import opened Reachability
  import opened Graphs

  const RAM_LOW := 0x01ff_0000
  const RAM_HIGH := 0x0203_0000
  const FORWARD := 0x40

  /** `literal` is the pool word of an item that loads one. */
  datatype Item = Item(bytes: seq<byte>, literal: Option<word>)

  datatype Problem = Problem(data: seq<byte>, decoder: Decoder, entry: int, items: map<int, Item>,
                             inverse: int, forward: int)

  /** A template offset and the source address it is matched with. */
  type Pair = (int, int)

  predicate InRam(a: int) {
    RAM_LOW <= a < RAM_HIGH
  }

  predicate Branches(i: Insn) {
    StartsWithB(i.mnemonic) && !i.mnemonic.Bx?
  }

  predicate Returns(i: Insn) {
    i.mnemonic.Bx? || (i.mnemonic.Pop? && i.mentionsPc)
  }

  /** The branch target, when the operand text is one address. */
  function Target(i: Insn): Option<int> {
    if |i.operands| == 1 && i.operands[0].Imm? then Some(i.operands[0].value) else None
  }

  /** The template instruction at an offset, decoded at the place it had in its own image. */
  function Reference(p: Problem, offset: int): Option<Insn>
    requires offset in p.items
  {
    p.decoder(p.items[offset].bytes, p.entry + offset)
  }

  predicate InBounds(p: Problem, at: Pair) {
    at.0 in p.items && 0 <= at.1 < |p.data|
  }

  /** Both sides decode to one mnemonic of one size. */
  predicate SameShape(p: Problem, at: Pair) {
    && InBounds(p, at)
    && DecodeAt(p.decoder, p.data, at.1).Some? && Reference(p, at.0).Some?
    && DecodeAt(p.decoder, p.data, at.1).value.mnemonic == Reference(p, at.0).value.mnemonic
    && |DecodeAt(p.decoder, p.data, at.1).value.bytes| == |Reference(p, at.0).value.bytes|
  }

  /** Literal loads agree but for the pool index, and both load RAM addresses or the same word. */
  predicate SameLiteral(p: Problem, at: Pair)
    requires SameShape(p, at) && p.items[at.0].literal.Some?
  {
    var bytes, expected := DecodeAt(p.decoder, p.data, at.1).value.bytes, p.items[at.0].bytes;
    && bytes != [] && expected != [] && bytes[1..] == expected[1..]
    && Literal(p.data, at.1).Some?
    && var wanted, found := p.items[at.0].literal.value, Literal(p.data, at.1).value;
    if InRam(wanted) then InRam(found) else found == wanted
  }

  /** The match of one pair: None when it fails, otherwise the pairs control may go to. */
  function Visit(p: Problem, at: Pair): Option<set<Pair>> {
    if !SameShape(p, at) then None
    else
      var actual, reference := DecodeAt(p.decoder, p.data, at.1).value, Reference(p, at.0).value;
      var after := if Returns(actual) then {} else {(at.0 + |reference.bytes|, at.1 + |actual.bytes|)};
      if p.items[at.0].literal.Some? then
        if SameLiteral(p, at) then Some(after) else None
      else if Branches(actual) then
        if Target(reference).None? || Target(actual).None? then None
        else
          var jump := {(Target(reference).value - p.entry, Target(actual).value)};
          if actual.mnemonic.B? then Some(jump) else Some(jump + after)
      else if actual.bytes == p.items[at.0].bytes then Some(after)
      else None
  }

  function Next(p: Problem): Pair -> set<Pair> {
    at => match Visit(p, at) case None => {} case Some(next) => next
  }

  function Roots(p: Problem): set<Pair> {
    {(0, p.inverse), (FORWARD, p.forward)}
  }

  /** The RAM address a pair of literal loads relates: template word and source word. */
  function Role(p: Problem, at: Pair): Option<(int, int)> {
    if InBounds(p, at) && p.items[at.0].literal.Some? && InRam(p.items[at.0].literal.value) &&
    Literal(p.data, at.1).Some?
    then Some((p.items[at.0].literal.value, Literal(p.data, at.1).value))
    else None
  }

  ghost function Roles(p: Problem, v: set<Pair>): set<(int, int)> {
    set at | at in v && Role(p, at).Some? :: Role(p, at).value
  }

  /** Every pair matches and nothing is joined inconsistently or aliased. */
  ghost predicate Consistent(p: Problem, v: set<Pair>) {
    && (forall at :: at in v ==> Visit(p, at).Some?)
    && Functional(v) && Injective(v)
    && Functional(Roles(p, v))
  }

  /**
   `v` is the whole joint control flow of template and source from both roots: a
   bijection between all template offsets and the source addresses, along which
   the RAM addresses are renamed one to one.
   */
  ghost predicate Qualifies(p: Problem, v: set<Pair>) {
    && Reaches(Roots(p), Next(p), v)
    && Consistent(p, v)
    && Domain(v) == p.items.Keys
    && Injective(Roles(p, v))
  }

  /** Matching one pair inside the bounds, the part of the loop body that compares instructions. */
  method Match(p: Problem, at: Pair, ram: map<int, int>) returns (pushed: Option<seq<Pair>>, roles: map<int, int>)
    requires InBounds(p, at)
    ensures pushed.Some? <==> Visit(p, at).Some? && Agrees(ram, Role(p, at))
    ensures pushed.Some? ==> Elements(pushed.value) == Next(p)(at) && roles == Record(ram, Role(p, at))
  {
    var (offset, pc) := at;
    var item, found, wanted := p.items[offset], DecodeAt(p.decoder, p.data, pc), Reference(p, offset);
    roles := ram;
    if found.None? || wanted.None? {
      return None, roles;
    }
    var actual, reference := found.value, wanted.value;
    if actual.mnemonic != reference.mnemonic || |actual.bytes| != |reference.bytes| {
      return None, roles;
    }
    var jump := [];
    if item.literal.Some? {
      if !SameLiteral(p, at) {
        return None, roles;
      }
      var template, source := item.literal.value, Literal(p.data, pc).value;
      if InRam(template) {
        if template in ram && ram[template] != source {
          return None, roles;
        }
        roles := ram[template := source];
      }
    } else if Branches(actual) {
      if Target(reference).None? || Target(actual).None? {
        return None, roles;
      }
      jump := [(Target(reference).value - p.entry, Target(actual).value)];
      if actual.mnemonic.B? {
        return Some(jump), roles;
      }
    } else if actual.bytes != item.bytes {
      return None, roles;
    }
    if Returns(actual) {
      return Some(jump), roles;
    }
    pushed := Some(jump + [(offset + |reference.bytes|, pc + |actual.bytes|)]);
  }

  /** The result of a successful binding. */
  datatype Binding = Binding(instructions: map<int, int>, ram: map<int, int>)

  /** An inconsistency among reached pairs rules out every match. */
  lemma NothingQualifies(p: Problem, seen: set<Pair>, pending: set<Pair>, at: Pair)
    requires Frontier(Roots(p), Next(p), seen, pending) && at in pending
    requires !Consistent(p, seen + {at})
    ensures forall v :: !Qualifies(p, v)
  {
    forall v | Reaches(Roots(p), Next(p), v) ensures !Consistent(p, v) {
      assert seen + {at} <= v;
      assert Roles(p, seen + {at}) <= Roles(p, v);
    }
  }

  lemma RolesOneMore(p: Problem, seen: set<Pair>, at: Pair)
    ensures Roles(p, seen + {at}) == Roles(p, seen) + if Role(p, at).Some? then {Role(p, at).value} else {}
  {
  }

  predicate Agrees(ram: map<int, int>, role: Option<(int, int)>) {
    role.Some? && role.value.0 in ram ==> ram[role.value.0] == role.value.1
  }

  function Record(ram: map<int, int>, role: Option<(int, int)>): map<int, int> {
    if role.Some? then ram[role.value.0 := role.value.1] else ram
  }

  lemma RecordedOneMore(p: Problem, seen: set<Pair>, ram: map<int, int>, at: Pair)
    requires Graph(ram) == Roles(p, seen) && Agrees(ram, Role(p, at))
    ensures Graph(Record(ram, Role(p, at))) == Roles(p, seen + {at})
  {
    RolesOneMore(p, seen, at);
    if Role(p, at).Some? {
      GraphOfUpdate(ram, Role(p, at).value.0, Role(p, at).value.1);
    }
  }

  /** One more matched pair that no earlier pair contradicts. */
  lemma ConsistentOneMore(p: Problem, visited: map<int, int>, reverse: map<int, int>, ram: map<int, int>, at: Pair)
    requires Consistent(p, Graph(visited)) && Mirrors(visited, reverse) && Graph(ram) == Roles(p, Graph(visited))
    requires at.0 !in visited && at.1 !in reverse && Visit(p, at).Some? && Agrees(ram, Role(p, at))
    ensures Graph(visited[at.0 := at.1]) == Graph(visited) + {at}
    ensures Graph(Record(ram, Role(p, at))) == Roles(p, Graph(visited) + {at})
    ensures Consistent(p, Graph(visited) + {at})
  {
    RecordedOneMore(p, Graph(visited), ram, at);
    GraphOfUpdate(visited, at.0, at.1);
    GraphIsFunctional(visited[at.0 := at.1]);
    MirrorOneMore(visited, reverse, at.0, at.1);
    GraphIsFunctional(Record(ram, Role(p, at)));
  }

  /** A pair that an earlier pair or role contradicts. */
  lemma Contradicted(p: Problem, visited: map<int, int>, reverse: map<int, int>, ram: map<int, int>, at: Pair)
    requires Mirrors(visited, reverse) && Graph(ram) == Roles(p, Graph(visited))
    requires || (if at.0 in visited then visited[at.0] != at.1 else at.1 in reverse)
             || Visit(p, at).None?
             || !Agrees(ram, Role(p, at))
    ensures !Consistent(p, Graph(visited) + {at})
  {
    if if at.0 in visited then visited[at.0] != at.1 else at.1 in reverse {
      JoinContradicts(visited, reverse, at.0, at.1);
    } else if Visit(p, at).Some? {
      RolesOneMore(p, Graph(visited), at);
      var (a, b) := Role(p, at).value;
      assert (a, ram[a]) in Roles(p, Graph(visited) + {at}) && (a, b) in Roles(p, Graph(visited) + {at});
    } else {
      assert at in Graph(visited) + {at};
    }
  }

  lemma OnlyOneMatch(p: Problem, v: set<Pair>, ram: map<int, int>)
    requires Reaches(Roots(p), Next(p), v) && Consistent(p, v) && Graph(ram) == Roles(p, v)
    ensures Qualifies(p, v) <==> Domain(v) == p.items.Keys && |ram.Values| == |ram|
    ensures forall w :: Qualifies(p, w) ==> w == v
  {
    ValuesCountKeys(ram);
    forall w | Reaches(Roots(p), Next(p), w) ensures w == v {
    }
  }

  /** The loop invariant of the search. */
  ghost predicate Working(p: Problem, visited: map<int, int>, reverse: map<int, int>, ram: map<int, int>,
                          queue: seq<Pair>) {
    && Frontier(Roots(p), Next(p), Graph(visited), Elements(queue))
    && Consistent(p, Graph(visited)) && Mirrors(visited, reverse) && Graph(ram) == Roles(p, Graph(visited))
    && visited.Keys <= p.items.Keys && |visited| <= |p.items|
  }

  lemma SkipVisited(p: Problem, visited: map<int, int>, reverse: map<int, int>, ram: map<int, int>, queue: seq<Pair>)
    requires Working(p, visited, reverse, ram, queue) && queue != []
    requires Last(queue).0 in visited && visited[Last(queue).0] == Last(queue).1
    ensures Working(p, visited, reverse, ram, AllButLast(queue))
  {
    AdvanceStack(Roots(p), Next(p), Graph(visited), queue, []);
    assert AllButLast(queue) + [] == AllButLast(queue);
  }

  lemma VisitOneMore(p: Problem, visited: map<int, int>, reverse: map<int, int>, ram: map<int, int>, queue: seq<Pair>,
                     pushed: seq<Pair>)
    requires Working(p, visited, reverse, ram, queue) && queue != []
    requires var at := Last(queue);
      at.0 !in visited && at.1 !in reverse && Visit(p, at).Some? && Agrees(ram, Role(p, at)) &&
      Elements(pushed) == Next(p)(at)
    ensures var at := Last(queue);
      Working(p, visited[at.0 := at.1], reverse[at.1 := at.0], Record(ram, Role(p, at)), AllButLast(queue) + pushed)
    ensures |visited[Last(queue).0 := Last(queue).1]| == |visited| + 1
  {
    var at := Last(queue);
    ConsistentOneMore(p, visited, reverse, ram, at);
    MirrorOneMore(visited, reverse, at.0, at.1);
    AdvanceStack(Roots(p), Next(p), Graph(visited), queue, pushed);
    SubsetSize(visited[at.0 := at.1].Keys, p.items.Keys);
  }

  lemma MatchFails(p: Problem, visited: map<int, int>, reverse: map<int, int>, ram: map<int, int>, queue: seq<Pair>)
    requires Working(p, visited, reverse, ram, queue) && queue != []
    requires var at := Last(queue);
      || (if at.0 in visited then visited[at.0] != at.1 else at.1 in reverse)
      || Visit(p, at).None?
      || !Agrees(ram, Role(p, at))
    ensures forall v :: !Qualifies(p, v)
  {
    Contradicted(p, visited, reverse, ram, Last(queue));
    NothingQualifies(p, Graph(visited), Elements(queue), Last(queue));
  }

  /** The search. It succeeds exactly when a match exists, and then returns that match and its renaming. */
  method BindLeaves(p: Problem) returns (r: Option<Binding>)
    ensures r.Some? <==> exists v :: Qualifies(p, v)
    ensures r.Some? ==>
            forall v :: Qualifies(p, v) ==> Graph(r.value.instructions) == v && Graph(r.value.ram) == Roles(p, v)
  {
    var ram, visited, reverse: map<int, int> := map[], map[], map[];
    var queue := [(0, p.inverse), (FORWARD, p.forward)];
    while queue != []
      invariant Working(p, visited, reverse, ram, queue)
      decreases |p.items| - |visited|, |queue|
    {
      var at := Last(queue);
      if at.0 in visited {
        if visited[at.0] != at.1 {
          MatchFails(p, visited, reverse, ram, queue);
          return None;
        }
        SkipVisited(p, visited, reverse, ram, queue);
        queue := AllButLast(queue);
        continue;
      }
      var pushed: Option<seq<Pair>>, roles := None, ram;
      if at.1 !in reverse && InBounds(p, at) {
        pushed, roles := Match(p, at, ram);
      }
      if pushed.None? {
        MatchFails(p, visited, reverse, ram, queue);
        return None;
      }
      VisitOneMore(p, visited, reverse, ram, queue, pushed.value);
      visited, reverse, ram := visited[at.0 := at.1], reverse[at.1 := at.0], roles;
      queue := AllButLast(queue) + pushed.value;
    }
    EmptyFrontier(Roots(p), Next(p), Graph(visited));
    GraphIsFunctional(visited);
    OnlyOneMatch(p, Graph(visited), ram);
    if visited.Keys != p.items.Keys || |ram.Values| != |ram| {
      return None;
    }
    r := Some(Binding(visited, ram));
  }
}
