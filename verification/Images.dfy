/**
 Byte images and the little-endian reads that every analysis shares.
 Bit masks of the program are written as divisions: for a halfword `h`,
 `h & 0xf800 == 0x4800` is `h / 0x800 == 9` and `h & 255` is `h % 256`.
 */
module Images {

  type byte = x: int | 0 <= x < 0x100
  type word = x: int | 0 <= x < 0x1_0000_0000

  datatype Option<+T> = None | Some(value: T)

  /** 32-bit truncation. */
  function Wrap(x: int): word {
    x % 0x1_0000_0000
  }

  function Min(a: int, b: int): int {
    if a < b then a else b
  }

  function Max(a: int, b: int): int {
    if a < b then b else a
  }

  /** The bytes of a word, low byte first. */
  function ByteOf(w: word, i: int): byte {
    if i == 0 then w % 0x100 else if i == 1 then w / 0x100 % 0x100 else if i == 2 then w / 0x100 / 0x100 % 0x100
    else w / 0x100 / 0x100 / 0x100
  }

  lemma WordOfBytes(w: word)
    ensures ByteOf(w, 0) + 0x100 * ByteOf(w, 1) as int + 0x1_0000 * ByteOf(w, 2) as int +
            0x100_0000 * ByteOf(w, 3) as int == w
  {
    var a := w / 0x100;
    var b := a / 0x100;
    assert w == 0x100 * a + w % 0x100 && a == 0x100 * b + a % 0x100 && b == 0x100 * (b / 0x100) + b % 0x100;
  }

  /** The integers from `lo` to before `hi`. */
  ghost function {:induction false} Points(lo: int, hi: int): (s: set<int>)
    requires lo <= hi
    ensures |s| == hi - lo && forall p :: p in s <==> lo <= p < hi
    decreases hi - lo
  {
    if lo == hi then {} else Points(lo, hi - 1) + {hi - 1}
  }

  /** `data[lo:hi]` for bounds that are not negative: clipped, never an error. */
  function Slice(data: seq<byte>, lo: nat, hi: nat): (s: seq<byte>)
    ensures |s| == Max(0, Min(hi, |data|) - lo)
    ensures forall i :: 0 <= i < |s| ==> s[i] == data[lo + i]
  {
    if Min(hi, |data|) <= lo then [] else data[lo..Min(hi, |data|)]
  }

  /** `data[lo:hi] = blob` on a bytearray, which grows or shrinks when the lengths differ. */
  function Assign(data: seq<byte>, lo: nat, hi: nat, blob: seq<byte>): seq<byte> {
    var l := Min(lo, |data|);
    data[..l] + blob + data[Max(l, Min(hi, |data|))..]
  }

  /** A halfword; a read past the end sees only the bytes that exist. */
  function Half(data: seq<byte>, at: nat): int {
    if at + 2 <= |data| then data[at] as int + 0x100 * data[at + 1] as int
    else if at + 1 == |data| then data[at]
    else 0
  }

  function Word(data: seq<byte>, at: nat): word
    requires at + 4 <= |data|
  {
    data[at] as int + 0x100 * data[at + 1] as int + 0x1_0000 * data[at + 2] as int + 0x100_0000 * data[at + 3] as int
  }

  /** Address of the pool entry that a literal load at `pc` with opcode `op` reads. */
  function PoolAddress(pc: nat, op: int): int {
    (pc + 4) / 4 * 4 + 4 * (op % 256)
  }

  /** The value a literal load at `pc` reads; None when the opcode is another one or the pool is outside. */
  function Literal(data: seq<byte>, pc: nat): Option<word> {
    var op := Half(data, pc);
    if op / 0x800 == 9 && PoolAddress(pc, op) + 4 <= |data| && 0 <= PoolAddress(pc, op)
    then Some(Word(data, PoolAddress(pc, op)))
    else None
  }

  /** The two bytes of a halfword. */
  function HalfBytes(h: int): (bytes: seq<byte>)
    requires 0 <= h < 0x1_0000
    ensures |bytes| == 2
  {
    [h % 0x100, h / 0x100]
  }
}
