/**
 The disc audit (scripts/firmware_execution/disc.py) as a theorem: on a captured disc, the native leaves
 that the binding finds take every logical sector to its physical address and back.
 */
module DiscAudit {
  import opened Images
  import opened Thumb
  import opened AddressMap
  import opened DiscGeometry
  import opened ClassicMapping
  import opened ClassicTemplate
  import opened ClassicForward
  import opened ClassicBinding

  /** The end of the last of the first `n` layers. */
  function LastEnd(e: Ends, n: nat): word {
    if n == 1 then e.e0 else if n == 2 then e.e1 else e.e2
  }

  /** Addresses of the first `n` layers do not depend on the ends of the others. */
  lemma {:induction false} LaterEndsDoNotMatterBack(p: word, e: Ends, k: word, n: nat)
    requires 1 <= n <= 3 && Completed(e, n).WellFormed() && p <= LastEnd(e, n)
    ensures Denormalize(p, e, k) == Denormalize(p, Completed(e, n), k)
  {
    SmallParts(Completed(e, n));
  }

  /** A sector's physical address is inside one of the disc's layers. */
  lemma PhysicalIsBeforeLastEnd(g: Geometry, e: Ends, lba: int)
    requires Tiles(g) && Mirrored(g, e) && 0 <= lba < g.sectorCount
    ensures Physical(g, lba).Some? && 0 <= Physical(g, lba).value <= LastEnd(e, |g.segments|)
  {
    var i := SectorLayer(g, e, lba);
    MirroredIsWellFormed(g, e);
  }

  /** The forward map takes the physical address of every sector of a mirrored disc back to the sector. */
  lemma DenormalizeIsReverseLookup(g: Geometry, e: Ends, lba: int, k: word)
    requires Tiles(g) && Mirrored(g, e) && 0 <= lba < g.sectorCount
    ensures Physical(g, lba).Some? && 0 <= Physical(g, lba).value <= TOP
    ensures Denormalize(Physical(g, lba).value, e, k) == Wrap(lba - k)
  {
    var n := |g.segments|;
    CompletedLookup(g, e, lba);
    PhysicalIsBeforeLastEnd(g, e, lba);
    LaterEndsDoNotMatterBack(Physical(g, lba).value, e, k, n);
    DenormalizeUndoesNormalize(lba + FIRST_PHYSICAL, Completed(e, n), k);
  }

  /** Sector and physical address, as the segment table of a mirrored disc relates them. */
  ghost predicate Locates(g: Geometry, e: Ends, lba: int, psn: word) {
    Tiles(g) && Mirrored(g, e) && 0 <= lba < g.sectorCount && Physical(g, lba) == Some(psn)
  }

  lemma NormalizeLocates(g: Geometry, e: Ends, lba: int, psn: word)
    requires Locates(g, e, lba, psn)
    ensures 0 <= lba && lba + FIRST_PHYSICAL <= TOP && Normalize(lba + FIRST_PHYSICAL, e) == psn
  {
    NormalizeIsTableLookup(g, e, lba);
  }

  lemma DenormalizeReturns(g: Geometry, e: Ends, lba: int, psn: word, k: word)
    requires Locates(g, e, lba, psn)
    ensures Denormalize(psn, e, k) == Wrap(lba - k)
  {
    DenormalizeIsReverseLookup(g, e, lba, k);
  }

  /**
   Two of the audit's equations, for the maps: address from sector, and sector, less the recorded offset, from
   address.
   */
  lemma MapsAgreeWithTable(g: Geometry, e: Ends, lba: int, psn: word, k: word)
    requires Locates(g, e, lba, psn)
    ensures 0 <= lba && lba + FIRST_PHYSICAL <= TOP
    ensures Normalize(lba + FIRST_PHYSICAL, e) == psn
    ensures Denormalize(psn, e, k) == Wrap(lba - k) && (k == 0 ==> Denormalize(psn, e, k) == lba)
  {
    NormalizeLocates(g, e, lba, psn);
    DenormalizeReturns(g, e, lba, psn, k);
  }

  /** On a mirrored disc the code found for the inverse leaf gives the physical address of every sector. */
  lemma InverseLeafLocates(p: Problem, v: set<Pair>, ram: map<int, int>, g: Geometry, e: Ends, lba: int, psn: word,
                           s: State)
    returns (n: nat, s': State)
    requires Native(p) && BoundTo(p, v, ram) && CellsIn(ram) && s.Valid() && EndsHeld(ram, s.memory) == e
    requires Locates(g, e, lba, psn) && s.regs[0] == lba + FIRST_PHYSICAL
    ensures Computes(p, p.inverse, s, n, s', psn)
  {
    MapsAgreeWithTable(g, e, lba, psn, 0);
    n, s' := BoundInverseNormalizes(p, v, ram, s);
  }

  /** `BoundForwardDenormalizes` with the contents of the cells named. */
  lemma ForwardLeafMaps(p: Problem, v: set<Pair>, ram: map<int, int>, e: Ends, k: word, s: State)
    returns (n: nat, s': State)
    requires Native(p) && BoundTo(p, v, ram) && CellsIn(ram) && s.Valid()
    requires EndsHeld(ram, s.memory) == e && OffsetHeld(ram, s.memory) == k
    ensures Computes(p, p.forward, s, n, s', Denormalize(s.regs[0], e, k))
  {
    n, s' := BoundForwardDenormalizes(p, v, ram, s);
  }

  /**
   And the code found for the forward leaf gives from the physical address the sector less the offset that
   its record holds; the sector itself when the record holds zero.
   */
  lemma ForwardLeafReturns(p: Problem, v: set<Pair>, ram: map<int, int>, g: Geometry, e: Ends, lba: int, psn: word,
                           k: word, s: State)
    returns (n: nat, s': State)
    requires Native(p) && BoundTo(p, v, ram) && CellsIn(ram) && s.Valid()
    requires EndsHeld(ram, s.memory) == e && OffsetHeld(ram, s.memory) == k
    requires Locates(g, e, lba, psn) && s.regs[0] == psn
    ensures Computes(p, p.forward, s, n, s', Wrap(lba - k)) && (k == 0 ==> Wrap(lba - k) == lba)
  {
    n, s' := ForwardLeafMaps(p, v, ram, e, k, s);
    MapsAgreeWithTable(g, e, lba, psn, k);
  }
}
