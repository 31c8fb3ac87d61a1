/** Disc geometry from captured structure bytes, and its agreement with the native address map. */
module DiscGeometry {
  import opened Images
  import opened AddressMap

  const SECTOR := 2048
  const FIRST_PHYSICAL := 0x10_0000

  datatype Segment = Segment(layer: nat, physicalStart: word, recordedEnd: word, dataEnd: int, firstLogical: int,
                             count: int)
  datatype Geometry = Geometry(identifier: byte, format: byte, layers: nat, sectorCount: int, segments: seq<Segment>)

  function BigWord(data: seq<byte>, at: nat): word
    requires at + 4 <= |data|
  {
    data[at] as int * 0x100_0000 + data[at + 1] as int * 0x1_0000 + data[at + 2] as int * 0x100 + data[at + 3] as int
  }

  predicate HasHeader(raw: seq<byte>, capacity: seq<byte>) {
    && |raw| >= 196 && raw[4..6] == [0x44, 0x49] && raw[12..14] == [0x42, 0x44]
    && |capacity| == 8 && BigWord(capacity, 4) == SECTOR
    && 1 <= raw[16] / 16 <= 3
  }

  function PhysicalStart(raw: seq<byte>, layer: nat): word
    requires |raw| >= 196 && layer < 3
  {
    BigWord(raw, layer * 64 + 28)
  }

  function RecordedEnd(raw: seq<byte>, layer: nat): word
    requires |raw| >= 196 && layer < 3
  {
    BigWord(raw, layer * 64 + 32)
  }

  /** The inclusive end of a layer's data: one past the recorded field, but never past the last address of the disc. */
  function DataEnd(raw: seq<byte>, layer: nat): int
    requires |raw| >= 196 && layer < 3
  {
    Min(RecordedEnd(raw, layer) + 1, BigWord(raw, 24))
  }

  /** Sectors before a layer. */
  function FirstLogical(raw: seq<byte>, layer: nat): int
    requires |raw| >= 196 && layer <= 3
  {
    if layer == 0 then 0
    else FirstLogical(raw, layer - 1) + DataEnd(raw, layer - 1) - PhysicalStart(raw, layer - 1) + 1
  }

  function SegmentOf(raw: seq<byte>, layer: nat): Segment
    requires |raw| >= 196 && layer < 3
  {
    Segment(layer, PhysicalStart(raw, layer), RecordedEnd(raw, layer), DataEnd(raw, layer), FirstLogical(raw, layer),
            DataEnd(raw, layer) - PhysicalStart(raw, layer) + 1)
  }

  /** What the structure and capacity bytes must satisfy to give a geometry. */
  predicate Acceptable(raw: seq<byte>, capacity: seq<byte>) {
    && HasHeader(raw, capacity)
    && AllForward(raw, raw[16] as int / 16)
    && FirstLogical(raw, raw[16] as int / 16) == BigWord(capacity, 0) + 1
  }

  function Segments(raw: seq<byte>, n: nat): seq<Segment>
    requires |raw| >= 196 && n <= 3
  {
    seq(n, i requires 0 <= i < n => SegmentOf(raw, i))
  }

  function Described(raw: seq<byte>, capacity: seq<byte>): Geometry
    requires HasHeader(raw, capacity)
  {
    var layers := raw[16] as int / 16;
    Geometry(raw[14], raw[17], layers, BigWord(capacity, 0) + 1, Segments(raw, layers))
  }

  /** No layer's data ends before it starts. */
  predicate AllForward(raw: seq<byte>, layers: nat)
    requires |raw| >= 196 && layers <= 3
  {
    forall layer: nat :: layer < layers ==> DataEnd(raw, layer) >= PhysicalStart(raw, layer)
  }

  method DeriveSegments(raw: seq<byte>, layers: nat) returns (segments: Option<seq<Segment>>, logical: int)
    requires |raw| >= 196 && layers <= 3
    ensures segments.Some? <==> AllForward(raw, layers)
    ensures segments.Some? ==> segments.value == Segments(raw, layers) && logical == FirstLogical(raw, layers)
  {
    var last := BigWord(raw, 24);
    var found: seq<Segment> := [];
    logical := 0;
    for layer := 0 to layers
      invariant found == Segments(raw, layer)
      invariant logical == FirstLogical(raw, layer)
      invariant AllForward(raw, layer)
    {
      var start, recorded := BigWord(raw, layer * 64 + 28), BigWord(raw, layer * 64 + 32);
      var end: int := Min(recorded as int + 1, last);
      if end < start {
        assert !(DataEnd(raw, layer) >= PhysicalStart(raw, layer));
        return None, 0;
      }
      var length := end - start + 1;
      found := found + [Segment(layer, start, recorded, end, logical, length)];
      logical := logical + length;
    }
    segments := Some(found);
  }

  // ---------------------------------------------------------------- segment tables

  predicate Holds(s: Segment, lba: int) {
    s.firstLogical <= lba < s.firstLogical + s.count
  }

  /** Segments follow one another in the linear space and together make up all sectors. */
  ghost predicate Tiles(g: Geometry) {
    && g.segments != [] && g.segments[0].firstLogical == 0
    && (forall i ::
         0 <= i < |g.segments| ==>
           g.segments[i].count >= 1 && g.segments[i].count == g.segments[i].dataEnd - g.segments[i].physicalStart + 1)
    && (forall i ::
         0 <= i < |g.segments| - 1 ==>
           g.segments[i].firstLogical + g.segments[i].count == g.segments[i + 1].firstLogical)
    && g.segments[|g.segments| - 1].firstLogical + g.segments[|g.segments| - 1].count == g.sectorCount
  }

  lemma GeometryTiles(raw: seq<byte>, capacity: seq<byte>)
    requires Acceptable(raw, capacity)
    ensures Tiles(Described(raw, capacity))
  {
    var g := Described(raw, capacity);
    forall i | 0 <= i < |g.segments|
      ensures g.segments[i] == SegmentOf(raw, i) && g.segments[i].count >= 1
      ensures g.segments[i].firstLogical + g.segments[i].count == FirstLogical(raw, i + 1)
    {
      assert DataEnd(raw, i) >= PhysicalStart(raw, i);
    }
  }

  /** What the structure records of a layer: its data ends one behind the recorded field, or with the disc. */
  predicate RecordsLayer(raw: seq<byte>, i: nat, s: Segment)
    requires |raw| >= 196 && i < 3
  {
    var last := BigWord(raw, 24);
    && s.layer == i && s.physicalStart == BigWord(raw, 28 + 64 * i) && s.recordedEnd == BigWord(raw, 32 + 64 * i)
    && if s.recordedEnd < last then s.dataEnd == s.recordedEnd + 1 else s.dataEnd == last
  }

  /** The structure and the capacity record this geometry: its segments tile as many sectors as the capacity says. */
  ghost predicate Records(raw: seq<byte>, capacity: seq<byte>, g: Geometry) {
    && |raw| >= 196 && raw[4] == 0x44 && raw[5] == 0x49 && raw[12] == 0x42 && raw[13] == 0x44
    && |capacity| == 8 && BigWord(capacity, 4) == 2048
    && g.identifier == raw[14] && g.format == raw[17]
    && |g.segments| == g.layers == raw[16] as int / 16 && 1 <= g.layers <= 3
    && g.sectorCount == BigWord(capacity, 0) + 1 && Tiles(g)
    && forall i :: 0 <= i < |g.segments| ==> RecordsLayer(raw, i, g.segments[i])
  }

  lemma {:induction false} RecordedSegments(raw: seq<byte>, capacity: seq<byte>, g: Geometry, i: nat)
    requires Records(raw, capacity, g) && i < |g.segments|
    ensures g.segments[i] == SegmentOf(raw, i) && DataEnd(raw, i) >= PhysicalStart(raw, i)
    ensures g.segments[i].firstLogical + g.segments[i].count == FirstLogical(raw, i + 1)
  {
    assert RecordsLayer(raw, i, g.segments[i]);
    if i > 0 {
      RecordedSegments(raw, capacity, g, i - 1);
      assert g.segments[i - 1].firstLogical + g.segments[i - 1].count == g.segments[i - 1 + 1].firstLogical;
    }
  }

  lemma HeaderIff(raw: seq<byte>, capacity: seq<byte>)
    ensures HasHeader(raw, capacity) <==>
            && |raw| >= 196 && raw[4] == 0x44 && raw[5] == 0x49 && raw[12] == 0x42 && raw[13] == 0x44
            && |capacity| == 8 && BigWord(capacity, 4) == 2048 && 1 <= raw[16] as int / 16 <= 3
  {
    if |raw| >= 196 {
      assert raw[4..6] == [raw[4], raw[5]] && raw[12..14] == [raw[12], raw[13]];
    }
  }

  lemma RecordedIsDescribed(raw: seq<byte>, capacity: seq<byte>, g: Geometry)
    requires Records(raw, capacity, g)
    ensures Acceptable(raw, capacity) && g == Described(raw, capacity)
  {
    HeaderIff(raw, capacity);
    forall i: nat | i < g.layers
      ensures g.segments[i] == SegmentOf(raw, i) && DataEnd(raw, i) >= PhysicalStart(raw, i)
    {
      RecordedSegments(raw, capacity, g, i);
    }
    RecordedSegments(raw, capacity, g, g.layers - 1);
    assert g.segments == Segments(raw, g.layers);
  }

  lemma DescribedIsRecorded(raw: seq<byte>, capacity: seq<byte>)
    requires Acceptable(raw, capacity)
    ensures Records(raw, capacity, Described(raw, capacity))
  {
    HeaderIff(raw, capacity);
    GeometryTiles(raw, capacity);
    var segments := Segments(raw, raw[16] as int / 16);
    forall i | 0 <= i < |segments| ensures RecordsLayer(raw, i, segments[i]) {
    }
  }

  /** A geometry is derived exactly when the bytes record it. */
  method Derive(raw: seq<byte>, capacity: seq<byte>) returns (geometry: Option<Geometry>)
    ensures geometry.Some? <==> Acceptable(raw, capacity)
    ensures geometry.Some? ==> geometry.value == Described(raw, capacity)
    ensures forall g :: geometry == Some(g) <==> Records(raw, capacity, g)
  {
    forall g | Records(raw, capacity, g) ensures Acceptable(raw, capacity) && g == Described(raw, capacity) {
      RecordedIsDescribed(raw, capacity, g);
    }
    if Acceptable(raw, capacity) {
      DescribedIsRecorded(raw, capacity);
    }
    if !HasHeader(raw, capacity) {
      return None;
    }
    var layers := raw[16] as int / 16;
    var segments, logical := DeriveSegments(raw, layers);
    var count := BigWord(capacity, 0) + 1;
    if segments.None? || logical != count {
      return None;
    }
    geometry := Some(Geometry(raw[14], raw[17], layers, count, segments.value));
  }

  /** The first segment that holds a sector. */
  function Find(segments: seq<Segment>, lba: int): Option<Segment> {
    if segments == [] then None
    else if Holds(segments[0], lba) then Some(segments[0])
    else Find(segments[1..], lba)
  }

  lemma {:induction false} FirstSegmentStartsLowest(g: Geometry, i: nat)
    requires Tiles(g) && i < |g.segments|
    ensures 0 <= g.segments[i].firstLogical
    ensures forall j :: 0 <= j < i ==> g.segments[j].firstLogical + g.segments[j].count <= g.segments[i].firstLogical
  {
    if i > 0 {
      FirstSegmentStartsLowest(g, i - 1);
      assert g.segments[i - 1].firstLogical + g.segments[i - 1].count == g.segments[i - 1 + 1].firstLogical;
    }
  }

  lemma {:induction false} FindFrom(segments: seq<Segment>, lba: int, i: nat)
    requires i < |segments| && Holds(segments[i], lba)
    requires forall j :: 0 <= j < i ==> !Holds(segments[j], lba)
    ensures Find(segments, lba) == Some(segments[i])
  {
    if i > 0 {
      FindFrom(segments[1..], lba, i - 1);
    }
  }

  /** Exactly one segment holds each sector below the capacity, and none holds another. */
  lemma {:induction false} EverySectorIsHeld(g: Geometry, lba: int, n: nat) returns (i: nat)
    requires Tiles(g) && n < |g.segments|
    requires 0 <= lba < g.segments[n].firstLogical + g.segments[n].count
    ensures i <= n && Holds(g.segments[i], lba)
    ensures Find(g.segments, lba) == Some(g.segments[i])
  {
    FirstSegmentStartsLowest(g, n);
    if lba >= g.segments[n].firstLogical {
      i := n;
      FindFrom(g.segments, lba, n);
    } else {
      assert g.segments[n - 1].firstLogical + g.segments[n - 1].count == g.segments[n - 1 + 1].firstLogical;
      i := EverySectorIsHeld(g, lba, n - 1);
    }
  }

  function Physical(g: Geometry, lba: int): Option<int> {
    var s := Find(g.segments, lba);
    if s.None? then None else Some(s.value.physicalStart + lba - s.value.firstLogical)
  }

  // ---------------------------------------------------------------- agreement with the native map

  /**
   `e` holds the ends of the layers the disc has, and each layer starts at the
   mirror image of the end before. The ends of further layers may be anything.
   */
  predicate Mirrored(g: Geometry, e: Ends) {
    && 1 <= |g.segments| <= 3
    && g.segments[0].physicalStart == FIRST_PHYSICAL && g.segments[0].dataEnd == e.e0 <= 0x01ff_ffff
    && (|g.segments| > 1 ==> g.segments[1].physicalStart == e.Base1() && g.segments[1].dataEnd == e.e1 <= 0x03ff_ffff)
    && (|g.segments| > 2 ==> g.segments[2].physicalStart == e.Base2() && g.segments[2].dataEnd == e.e2 <= 0x05ff_ffff)
  }

  /** The ends of the first `n` layers, the further layers filling their windows. */
  function Completed(e: Ends, n: nat): Ends {
    Ends(e.e0, if n > 1 then e.e1 else 0x03ff_ffff, if n > 2 then e.e2 else 0x05ff_ffff)
  }

  lemma MirroredIsWellFormed(g: Geometry, e: Ends)
    requires Tiles(g) && Mirrored(g, e)
    ensures Completed(e, |g.segments|).WellFormed()
  {
    assert forall i :: 0 <= i < |g.segments| ==> g.segments[i].dataEnd >= g.segments[i].physicalStart;
  }

  /** Values of the first `n` layers do not depend on the ends of the others. */
  lemma LaterEndsDoNotMatter(v: word, e: Ends, n: nat)
    requires 1 <= n <= 3 && Completed(e, n).WellFormed() && LayerOfValue(v, Completed(e, n)) < n
    ensures Normalize(v, e) == Normalize(v, Completed(e, n))
  {
    if v > e.e0 {
      WrappedSteps(v, Completed(e, n));
    }
  }

  /** Where a sector of a mirrored disc lies among the layers. */
  lemma SectorLayer(g: Geometry, e: Ends, lba: int) returns (i: nat)
    requires Tiles(g) && Mirrored(g, e) && 0 <= lba < g.sectorCount
    ensures i < |g.segments|
    ensures var c := Completed(e, |g.segments|);
      LayerOfValue(lba + FIRST_PHYSICAL, c) == i && Physical(g, lba) == Some(Unwrapped(lba + FIRST_PHYSICAL, c))
  {
    i := EverySectorIsHeld(g, lba, |g.segments| - 1);
    var s := g.segments;
    assert |s| > 1 ==> s[0].firstLogical + s[0].count == s[0 + 1].firstLogical;
    assert |s| > 2 ==> s[1].firstLogical + s[1].count == s[1 + 1].firstLogical;
    assert s[0].count == s[0].dataEnd - s[0].physicalStart + 1;
  }

  /** With the further layers filling their windows, the native map takes a sector to its physical address in full. */
  lemma CompletedLookup(g: Geometry, e: Ends, lba: int)
    requires Tiles(g) && Mirrored(g, e) && 0 <= lba < g.sectorCount
    ensures lba + FIRST_PHYSICAL <= TOP && Completed(e, |g.segments|).WellFormed()
    ensures Fits(lba + FIRST_PHYSICAL, Completed(e, |g.segments|))
    ensures Physical(g, lba) == Some(Normalize(lba + FIRST_PHYSICAL, Completed(e, |g.segments|)))
  {
    var i := SectorLayer(g, e, lba);
    MirroredIsWellFormed(g, e);
    WrappingIsHarmless(lba + FIRST_PHYSICAL, Completed(e, |g.segments|));
  }

  /**
   For every sector of a mirrored disc, the native map of `lba + 0x100000` is the physical
   address the table gives.
   */
  lemma NormalizeIsTableLookup(g: Geometry, e: Ends, lba: int)
    requires Tiles(g) && Mirrored(g, e) && 0 <= lba < g.sectorCount
    ensures lba + FIRST_PHYSICAL <= TOP
    ensures Physical(g, lba) == Some(Normalize(lba + FIRST_PHYSICAL, e))
  {
    var i := SectorLayer(g, e, lba);
    CompletedLookup(g, e, lba);
    LaterEndsDoNotMatter(lba + FIRST_PHYSICAL, e, |g.segments|);
  }

  /** And the inverse map leads back. */
  lemma LinearIsReverseLookup(g: Geometry, e: Ends, lba: int)
    requires Tiles(g) && Mirrored(g, e) && 0 <= lba < g.sectorCount
    ensures Physical(g, lba).Some? && LayerOf(Physical(g, lba).value, Completed(e, |g.segments|)).Some?
    ensures Linear(Physical(g, lba).value, Completed(e, |g.segments|)) == lba + FIRST_PHYSICAL
  {
    CompletedLookup(g, e, lba);
    LinearUndoesNormalize(lba + FIRST_PHYSICAL, Completed(e, |g.segments|));
  }

  /** From the captured bytes: an accepted capture of a mirrored disc addresses every sector as the native map does. */
  lemma CapturedGeometryMatchesNativeMap(raw: seq<byte>, capacity: seq<byte>, g: Geometry, e: Ends, lba: int)
    requires Acceptable(raw, capacity) && g == Described(raw, capacity) && Mirrored(g, e)
    requires 0 <= lba <= BigWord(capacity, 0)
    ensures lba + FIRST_PHYSICAL <= TOP && Physical(g, lba) == Some(Normalize(lba + FIRST_PHYSICAL, e))
  {
    GeometryTiles(raw, capacity);
    NormalizeIsTableLookup(g, e, lba);
  }
}
