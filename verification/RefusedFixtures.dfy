/**
 Two collections that the collector (scripts/build-mtk-disc-fixtures.py) writes without complaint and the
 loader (scripts/firmware_execution/disc.py) refuses, one for each condition of `FixtureRoundTrip.AcceptedIff`.
 */
module RefusedFixtures {
  import opened Images
  import opened Reachability
  import opened DiscGeometry
  import opened BlockStore
  import opened Fixtures
  import opened Collector
  import opened FixtureRoundTrip

  /** A sector file without a table is its sectors one after another. */
  lemma PlainFile(file: seq<byte>, count: nat)
    requires |file| == count * SECTOR && 4 <= |file| && file[0] != 0x42
    ensures WellFormed(file) && Stretches(file) == [Stretch(0, count, 0)]
    ensures forall lba: nat :: lba < count ==> Stored(file, Stretches(file), lba) == Some(Sector(file, lba))
  {
    assert Slice(file, 0, 4)[0] != 0x42;
  }

  /** Structure bytes of one layer, `last` its last address and `recorded` the field for its end. */
  predicate OneLayer(raw: seq<byte>, last: nat, recorded: nat) {
    && |raw| == 196 && raw[4..6] == [0x44, 0x49] && raw[12..14] == [0x42, 0x44] && raw[16] == 0x10
    && BigWord(raw, 24) == last && BigWord(raw, 28) == 0 && BigWord(raw, 32) == recorded
  }

  /** A disc of 100 sectors whose sector file has 513. */
  predicate Oversized(source: CaptureSource) {
    && OneLayer(source.structure, 99, 98) && source.capacity == [0, 0, 0, 99, 0, 0, 8, 0]
    && |source.sectors| == 513 * SECTOR && source.sectors[0] != 0x42
  }

  function OversizedStructure(): seq<byte> {
    seq(196, (i: int) =>
          match i case 4 => 0x44 case 5 => 0x49 case 12 => 0x42 case 13 => 0x44 case 16 => 0x10
                  case 27 => 99 case 35 => 98 case _ => 0)
  }

  function OversizedCapture(): CaptureSource {
    CaptureSource(0, OversizedStructure(), [0, 0, 0, 99, 0, 0, 8, 0], seq(513 * SECTOR, _ => 0))
  }

  lemma OversizedExists()
    ensures Oversized(OversizedCapture())
  {
  }

  lemma OversizedLeavesDisc(source: CaptureSource)
    requires Oversized(source)
    ensures Readable(source) && !KeepsToDisc(source)
  {
    PlainFile(source.sectors, 513);
    assert DataEnd(source.structure, 0) == 99 && FirstLogical(source.structure, 1) == 100;
    assert StoredIn(source, 512).Some?;
  }

  /** A capture that stores sectors past its disc is collected, and makes the loader refuse the collection. */
  lemma OversizedIsRefused(sha: seq<byte> -> Digest, source: CaptureSource, contents: seq<seq<byte>>, m: Manifest,
                           blob: seq<byte>)
    requires Oversized(source) && CollisionFree(sha) && Collected(sha, [source], contents, m, blob)
    ensures Readable(source) && !Accepts(sha, m, blob)
  {
    OversizedLeavesDisc(source);
    AcceptedIff(sha, [source], contents, m, blob);
    assert [source][0] == source;
  }

  /** The collector writes a manifest of such a capture, and the loader refuses it. */
  method CollectOversized(sha: seq<byte> -> Digest) returns (manifest: Option<Manifest>, loaded: Option<Bytes>)
    requires CollisionFree(sha)
    ensures manifest.Some? && loaded.None?
  {
    var source, blob := OversizedCapture(), [];
    OversizedExists();
    OversizedLeavesDisc(source);
    manifest, blob := Collect(sha, [source], []);
    OversizedIsRefused(sha, source, [], manifest.value, blob);
    loaded := Load(sha, manifest.value, blob);
  }

  /** Structure bytes of two layers, of 512 sectors from address 0 and of one sector at address 1000. */
  predicate TwoLayers(raw: seq<byte>) {
    && |raw| == 196 && raw[4..6] == [0x44, 0x49] && raw[12..14] == [0x42, 0x44] && raw[16] == 0x20
    && BigWord(raw, 24) == 1000 && BigWord(raw, 28) == 0 && BigWord(raw, 32) == 510
    && BigWord(raw, 92) == 1000 && BigWord(raw, 96) == 999
  }

  /** A disc that ends in a layer of one sector, and an image with the same sectors, none of them zero. */
  predicate Lopsided(source: CaptureSource, content: seq<byte>) {
    && TwoLayers(source.structure) && source.capacity == [0, 0, 2, 0, 0, 0, 8, 0] && source.sectors == content
    && |content| == 513 * SECTOR && forall i :: 0 <= i < |content| ==> content[i] == 1
  }

  function LopsidedStructure(): seq<byte> {
    seq(196, (i: int) =>
          match i case 4 => 0x44 case 5 => 0x49 case 12 => 0x42 case 13 => 0x44 case 16 => 0x20
                  case 26 => 0x03 case 27 => 0xe8 case 34 => 0x01 case 35 => 0xfe
                  case 94 => 0x03 case 95 => 0xe8 case 98 => 0x03 case 99 => 0xe7 case _ => 0)
  }

  function LopsidedContent(): seq<byte> {
    seq(513 * SECTOR, _ => 1)
  }

  function LopsidedCapture(): CaptureSource {
    CaptureSource(0, LopsidedStructure(), [0, 0, 2, 0, 0, 0, 8, 0], LopsidedContent())
  }

  lemma LopsidedExists()
    ensures Lopsided(LopsidedCapture(), LopsidedContent())
  {
  }

  lemma LopsidedEndsShort(source: CaptureSource, content: seq<byte>)
    requires Lopsided(source, content)
    ensures Readable(source) && KeepsToDisc(source) && !LastLayerHasTwo(source)
  {
    PlainFile(content, 513);
    var raw := source.structure;
    assert PhysicalStart(raw, 1) == 1000 && DataEnd(raw, 0) == 511 && DataEnd(raw, 1) == 1000;
    assert FirstLogical(raw, 1) == 512;
    assert FirstLogical(raw, 2) == 513;
  }

  lemma NoZeroSector(content: seq<byte>, lba: nat)
    requires |content| == 513 * SECTOR && lba < 513 && forall i :: 0 <= i < |content| ==> content[i] == 1
    ensures Sector(content, lba) != ZeroSector()
  {
    assert Sector(content, lba)[0] == 1;
  }

  lemma MetadataIsLow(lba: nat)
    requires lba in METADATA
    ensures lba <= 512
  {
  }

  lemma EverySectorTells(source: CaptureSource, content: seq<byte>, metadata: set<nat>)
    requires Lopsided(source, content) && Readable(source) && metadata == METADATA
    ensures Telling(source) == metadata
    ensures forall lba :: lba in metadata ==> StoredIn(source, lba) == Some(Sector(content, lba))
  {
    PlainFile(content, 513);
    forall lba | lba in metadata
      ensures StoredIn(source, lba) == Some(Sector(content, lba)) && Sector(content, lba) != ZeroSector()
    {
      MetadataIsLow(lba);
      NoZeroSector(content, lba);
    }
  }

  lemma MetadataSuffices()
    ensures {32, 256} <= METADATA && |METADATA| >= 3
  {
    SubsetSize({32, 256, 512}, METADATA);
  }

  lemma LopsidedMatches(source: CaptureSource, content: seq<byte>)
    requires Lopsided(source, content) && Readable(source)
    ensures SameDisc(source, content)
  {
    var metadata := METADATA;
    EverySectorTells(source, content, metadata);
    MetadataSuffices();
    forall lba | lba in Telling(source) ensures lba <= 512 && StoredIn(source, lba).value == Sector(content, lba) {
      MetadataIsLow(lba);
    }
  }

  /** An image that matches a disc whose last layer is one sector makes the loader refuse the collection. */
  lemma LopsidedIsRefused(sha: seq<byte> -> Digest, source: CaptureSource, content: seq<byte>, m: Manifest,
                          blob: seq<byte>)
    requires Lopsided(source, content) && CollisionFree(sha) && Collected(sha, [source], [content], m, blob)
    ensures Readable(source) && KeepsToDisc(source) && !Accepts(sha, m, blob)
  {
    LopsidedEndsShort(source, content);
    LopsidedMatches(source, content);
    AcceptedIff(sha, [source], [content], m, blob);
    assert [source][0] == source && [content][0] == content;
  }

  /** This collection too is written and then refused. */
  method CollectLopsided(sha: seq<byte> -> Digest) returns (manifest: Option<Manifest>, loaded: Option<Bytes>)
    requires CollisionFree(sha)
    ensures manifest.Some? && loaded.None?
  {
    var source, content, blob := LopsidedCapture(), LopsidedContent(), [];
    LopsidedExists();
    LopsidedEndsShort(source, content);
    manifest, blob := Collect(sha, [source], [content]);
    LopsidedIsRefused(sha, source, content, manifest.value, blob);
    loaded := Load(sha, manifest.value, blob);
  }
}
