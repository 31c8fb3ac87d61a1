/**
 Collector and loader together: exactly when a finished collection is accepted, and that it then gives
 back the bytes that were collected. Digests are assumed free of collisions.
 */
module FixtureRoundTrip {
  import opened Images
  import opened DiscGeometry
  import opened BlockStore
  import opened Fixtures
  import opened Collector

  /** Every sampled sector of the capture lies on the disc its geometry describes. */
  ghost predicate OnDisc(c: Capture) {
    forall lba :: lba in c.samples ==> lba < c.geometry.sectorCount
  }

  /** Behind the first sector of every later layer there is one more. */
  predicate BoundariesFit(c: Capture) {
    forall i :: 1 <= i < |c.geometry.segments| ==> c.geometry.segments[i].firstLogical + 1 < c.geometry.sectorCount
  }

  ghost predicate DistinctNames(sources: seq<CaptureSource>) {
    forall j, k :: 0 <= j < k < |sources| ==> sources[j].name != sources[k].name
  }

  lemma LoadedIs(sha: seq<byte> -> Digest, m: Manifest, blob: seq<byte>, data: seq<byte>)
    requires CollisionFree(sha) && Addressed(sha, blob, m.blocks) && sha(data) in m.blocks
    ensures Loaded(blob, m.blocks)[sha(data)] == data
  {
    StoredBytes(sha, blob, m.blocks, data);
  }

  // ---------------------------------------------------------------- captures

  lemma CaptureSamplesLoad(sha: seq<byte> -> Digest, m: Manifest, blob: seq<byte>, source: CaptureSource, c: Capture,
                           lba: nat)
    requires CollisionFree(sha) && Addressed(sha, blob, m.blocks) && CaptureOf(sha, m.blocks, source, c)
    requires lba in c.samples
    ensures c.samples[lba] in Loaded(blob, m.blocks) && |Loaded(blob, m.blocks)[c.samples[lba]]| == SECTOR
    ensures Some(Loaded(blob, m.blocks)[c.samples[lba]]) == Stored(source.sectors, Stretches(source.sectors), lba)
  {
    StretchesAreInside(source.sectors);
    StoredIsWhole(source.sectors, Stretches(source.sectors), lba);
    LoadedIs(sha, m, blob, Stored(source.sectors, Stretches(source.sectors), lba).value);
  }

  /** A collected capture loads exactly when none of its samples lies past the disc. */
  lemma CaptureLoadsIff(sha: seq<byte> -> Digest, m: Manifest, blob: seq<byte>, source: CaptureSource, c: Capture)
    requires CollisionFree(sha) && Addressed(sha, blob, m.blocks) && CaptureOf(sha, m.blocks, source, c)
    ensures CaptureLoads(Loaded(blob, m.blocks), c) <==> OnDisc(c)
  {
    LoadedIs(sha, m, blob, source.structure);
    LoadedIs(sha, m, blob, source.capacity);
    forall lba | lba in c.samples
      ensures c.samples[lba] in Loaded(blob, m.blocks) && |Loaded(blob, m.blocks)[c.samples[lba]]| == SECTOR
    {
      CaptureSamplesLoad(sha, m, blob, source, c, lba);
    }
  }

  lemma CapturesLoadIff(sha: seq<byte> -> Digest, m: Manifest, blob: seq<byte>, sources: seq<CaptureSource>)
    requires CollisionFree(sha) && Addressed(sha, blob, m.blocks) && DistinctNames(sources)
    requires CapturesOf(sha, m.blocks, sources, m.captures)
    ensures CapturesLoad(Loaded(blob, m.blocks), m.captures) <==>
            forall k :: 0 <= k < |m.captures| ==> OnDisc(m.captures[k])
  {
    forall k | 0 <= k < |m.captures|
      ensures CaptureLoads(Loaded(blob, m.blocks), m.captures[k]) <==> OnDisc(m.captures[k])
      ensures m.captures[k].name == sources[k].name
    {
      CaptureLoadsIff(sha, m, blob, sources[k], m.captures[k]);
    }
  }

  // ---------------------------------------------------------------- images

  lemma {:induction false} FindsOwn(captures: seq<Capture>, n: nat, k: nat)
    requires k < n <= |captures|
    requires forall i, j :: 0 <= i < j < |captures| ==> captures[i].name != captures[j].name
    ensures CaptureNamed(captures, n, captures[k].name) == Some(captures[k])
  {
    if k < n - 1 {
      FindsOwn(captures, n - 1, k);
    }
  }

  lemma LaterLayersAreInside(source: CaptureSource, c: Capture, i: nat)
    requires Readable(source) && c.geometry == Described(source.structure, source.capacity)
    requires 1 <= i < |c.geometry.segments|
    ensures 1 <= c.geometry.segments[i].firstLogical < c.geometry.sectorCount
  {
    GeometryTiles(source.structure, source.capacity);
    SegmentsAscend(c.geometry, i);
  }

  lemma {:induction false} SegmentsAscend(g: Geometry, i: nat)
    requires Tiles(g) && i < |g.segments|
    ensures i <= g.segments[i].firstLogical
    ensures g.segments[i].firstLogical + g.segments[i].count <= g.sectorCount
  {
    StartsAscend(g, i);
    EndsAscend(g, i);
  }

  lemma {:induction false} StartsAscend(g: Geometry, i: nat)
    requires Tiles(g) && i < |g.segments|
    ensures i <= g.segments[i].firstLogical
  {
    if i > 0 {
      StartsAscend(g, i - 1);
    }
  }

  lemma {:induction false} EndsAscend(g: Geometry, i: nat)
    requires Tiles(g) && i < |g.segments|
    ensures g.segments[i].firstLogical + g.segments[i].count <= g.sectorCount
    decreases |g.segments| - i
  {
    if i + 1 < |g.segments| {
      EndsAscend(g, i + 1);
    }
  }

  /** The sectors around a boundary of a matched capture are sampled as far as the image has them. */
  lemma BoundaryIsSampled(sha: seq<byte> -> Digest, captures: seq<Capture>, k: nat, content: seq<byte>, image: Image,
                          i: nat)
    requires k < |captures| && Matches(sha, captures[k], content, image.count)
    requires Associated(sha, captures, |captures|, content, image.count, image.samples, image.associations)
    requires 1 <= i < |captures[k].geometry.segments| && 1 <= captures[k].geometry.segments[i].firstLogical
    requires captures[k].geometry.segments[i].firstLogical < image.count
    ensures var boundary := captures[k].geometry.segments[i].firstLogical;
            BoundarySampled(image.samples, boundary) <==> boundary + 1 < image.count
  {
    var boundary := captures[k].geometry.segments[i].firstLogical;
    forall lba: nat | Near(boundary, lba) ensures lba in image.samples <==> lba < image.count {
      assert NearBoundary(captures[k], |captures[k].geometry.segments|, lba);
      assert NearMatched(sha, captures, |captures|, content, image.count, lba);
    }
    assert Near(boundary, boundary - 1) && Near(boundary, boundary) && Near(boundary, boundary + 1);
  }

  /** One association loads exactly when the sector behind every boundary exists. */
  lemma AssociationLoadsIff(sha: seq<byte> -> Digest, blocks: map<Digest, Span>, source: CaptureSource, c: Capture,
                            captures: seq<Capture>, k: nat, content: seq<byte>, image: Image)
    requires CaptureOf(sha, blocks, source, c) && k < |captures| && captures[k] == c
    requires ImageOf(sha, blocks, captures, content, image) && Matches(sha, c, content, image.count)
    ensures AssociationLoads(sha(ZeroSector()), c, image, Nonzero(sha(ZeroSector()), c)) <==> BoundariesFit(c)
  {
    var zero := sha(ZeroSector());
    forall lba | lba in Nonzero(zero, c) ensures SameSector(zero, c, image.samples, lba) {
      assert lba in METADATA && Selected(image.count, lba) &&
             Sampled(sha, captures, |captures|, content, image.count, lba);
    }
    forall i | 1 <= i < |c.geometry.segments|
      ensures BoundarySampled(image.samples, c.geometry.segments[i].firstLogical) <==>
              c.geometry.segments[i].firstLogical + 1 < c.geometry.sectorCount
    {
      LaterLayersAreInside(source, c, i);
      BoundaryIsSampled(sha, captures, k, content, image, i);
    }
  }

  ghost predicate AssociationFound(zero: Digest, captures: seq<Capture>, image: Image, a: Association) {
    var c := CaptureNamed(captures, |captures|, a.capture);
    c.Some? && AssociationLoads(zero, c.value, image, a.compared)
  }

  ghost predicate AllFound(zero: Digest, captures: seq<Capture>, image: Image, associations: seq<Association>) {
    forall i :: 0 <= i < |associations| ==> AssociationFound(zero, captures, image, associations[i])
  }

  /** Every one of the first `n` captures that the image matches has room behind its boundaries. */
  ghost predicate MatchedFit(sha: seq<byte> -> Digest, captures: seq<Capture>, n: nat, content: seq<byte>, count: nat)
    requires n <= |captures|
  {
    forall k :: 0 <= k < n ==> (Matches(sha, captures[k], content, count) ==> BoundariesFit(captures[k]))
  }

  lemma AllFoundAppend(zero: Digest, captures: seq<Capture>, image: Image, xs: seq<Association>, a: Association)
    ensures AllFound(zero, captures, image, xs + [a]) <==>
            AllFound(zero, captures, image, xs) && AssociationFound(zero, captures, image, a)
  {
    if AllFound(zero, captures, image, xs + [a]) {
      forall i | 0 <= i < |xs| ensures AssociationFound(zero, captures, image, xs[i]) {
        assert (xs + [a])[i] == xs[i];
      }
      assert (xs + [a])[|xs|] == a;
    }
  }

  lemma {:induction false} AssociationsLoadIff(sha: seq<byte> -> Digest, captures: seq<Capture>, n: nat,
                                               content: seq<byte>, count: nat, image: Image)
    requires n <= |captures|
    requires forall k :: 0 <= k < n && Matches(sha, captures[k], content, count) ==>
               (AssociationFound(sha(ZeroSector()), captures, image,
                                 AssociationWith(sha(ZeroSector()), captures[k])) <==>
                BoundariesFit(captures[k]))
    ensures AllFound(sha(ZeroSector()), captures, image, AssociationsOf(sha, captures, n, content, count)) <==>
            MatchedFit(sha, captures, n, content, count)
  {
    if n > 0 {
      AssociationsLoadIff(sha, captures, n - 1, content, count, image);
      AllFoundAppend(sha(ZeroSector()), captures, image, AssociationsOf(sha, captures, n - 1, content, count),
                     AssociationWith(sha(ZeroSector()), captures[n - 1]));
    }
  }

  lemma OwnAssociationLoadsIff(sha: seq<byte> -> Digest, m: Manifest, sources: seq<CaptureSource>, k: nat,
                               content: seq<byte>, image: Image)
    requires DistinctNames(sources) && CapturesOf(sha, m.blocks, sources, m.captures) && k < |m.captures|
    requires ImageOf(sha, m.blocks, m.captures, content, image) && Matches(sha, m.captures[k], content, image.count)
    ensures AssociationFound(sha(ZeroSector()), m.captures, image,
                             AssociationWith(sha(ZeroSector()), m.captures[k])) <==>
            BoundariesFit(m.captures[k])
  {
    assert forall i :: 0 <= i < |m.captures| ==> CaptureOf(sha, m.blocks, sources[i], m.captures[i]);
    FindsOwn(m.captures, |m.captures|, k);
    AssociationLoadsIff(sha, m.blocks, sources[k], m.captures[k], m.captures, k, content, image);
  }

  lemma ImageAssociationsIff(sha: seq<byte> -> Digest, m: Manifest, sources: seq<CaptureSource>, content: seq<byte>,
                             image: Image)
    requires DistinctNames(sources) && CapturesOf(sha, m.blocks, sources, m.captures)
    requires ImageOf(sha, m.blocks, m.captures, content, image)
    ensures AllFound(sha(ZeroSector()), m.captures, image, image.associations) <==>
            MatchedFit(sha, m.captures, |m.captures|, content, image.count)
  {
    forall k | 0 <= k < |m.captures| && Matches(sha, m.captures[k], content, image.count)
      ensures AssociationFound(sha(ZeroSector()), m.captures, image,
                               AssociationWith(sha(ZeroSector()), m.captures[k])) <==>
              BoundariesFit(m.captures[k])
    {
      OwnAssociationLoadsIff(sha, m, sources, k, content, image);
    }
    AssociationsLoadIff(sha, m.captures, |m.captures|, content, image.count, image);
  }

  lemma SectorIsWhole(content: seq<byte>, count: nat, lba: nat)
    requires |content| == count * SECTOR && lba < count
    ensures |Sector(content, lba)| == SECTOR
  {
    assert (lba + 1) * SECTOR <= count * SECTOR;
  }

  lemma ImageSamplesLoad(sha: seq<byte> -> Digest, m: Manifest, blob: seq<byte>, content: seq<byte>, image: Image)
    requires CollisionFree(sha) && Addressed(sha, blob, m.blocks) && |content| == image.count * SECTOR
    requires SamplesOfImage(sha, m.blocks, content, image.count, image.samples)
    ensures SamplesLoad(Loaded(blob, m.blocks), image.samples, image.count)
    ensures forall lba :: lba in image.samples ==> Loaded(blob, m.blocks)[image.samples[lba]] == Sector(content, lba)
  {
    forall lba | lba in image.samples
      ensures image.samples[lba] in Loaded(blob, m.blocks) && |Loaded(blob, m.blocks)[image.samples[lba]]| == SECTOR
      ensures Loaded(blob, m.blocks)[image.samples[lba]] == Sector(content, lba)
    {
      LoadedIs(sha, m, blob, Sector(content, lba));
      SectorIsWhole(content, image.count, lba);
    }
  }

  lemma ImageLoadsWhenFound(zero: Digest, loaded: Bytes, captures: seq<Capture>, image: Image)
    requires image.bytes == image.count * SECTOR && SamplesLoad(loaded, image.samples, image.count)
    ensures ImageLoads(zero, loaded, captures, image) <==> AllFound(zero, captures, image, image.associations)
  {
    if ImageLoads(zero, loaded, captures, image) {
      forall i | 0 <= i < |image.associations|
        ensures AssociationFound(zero, captures, image, image.associations[i])
      {
        assert image.associations[i] == image.associations[i];
      }
    }
    if AllFound(zero, captures, image, image.associations) {
      forall i | 0 <= i < |image.associations|
        ensures var a := image.associations[i];
                var c := CaptureNamed(captures, |captures|, a.capture);
                c.Some? && AssociationLoads(zero, c.value, image, a.compared)
      {
        assert AssociationFound(zero, captures, image, image.associations[i]);
      }
    }
  }

  /** A collected image loads exactly when every capture it matches has room behind its boundaries. */
  lemma ImageLoadsIff(sha: seq<byte> -> Digest, m: Manifest, blob: seq<byte>, sources: seq<CaptureSource>,
                      content: seq<byte>, image: Image)
    requires CollisionFree(sha) && Addressed(sha, blob, m.blocks) && DistinctNames(sources)
    requires CapturesOf(sha, m.blocks, sources, m.captures) && ImageOf(sha, m.blocks, m.captures, content, image)
    ensures ImageLoads(sha(ZeroSector()), Loaded(blob, m.blocks), m.captures, image) <==>
            MatchedFit(sha, m.captures, |m.captures|, content, image.count)
  {
    ImageSamplesLoad(sha, m, blob, content, image);
    ImageLoadsWhenFound(sha(ZeroSector()), Loaded(blob, m.blocks), m.captures, image);
    ImageAssociationsIff(sha, m, sources, content, image);
  }

  // ---------------------------------------------------------------- the whole collection

  lemma ManifestAcceptedIff(sha: seq<byte> -> Digest, sources: seq<CaptureSource>, contents: seq<seq<byte>>,
                            m: Manifest, blob: seq<byte>)
    requires CollisionFree(sha) && Collected(sha, sources, contents, m, blob) && DistinctNames(sources)
    ensures Accepts(sha, m, blob) <==>
            && (forall k :: 0 <= k < |m.captures| ==> OnDisc(m.captures[k]))
            && forall j :: 0 <= j < |m.images| ==>
                 MatchedFit(sha, m.captures, |m.captures|, contents[j], m.images[j].count)
  {
    StoreLoads(sha, blob, m.blocks);
    CapturesLoadIff(sha, m, blob, sources);
    forall j | 0 <= j < |m.images|
      ensures ImageLoads(sha(ZeroSector()), Loaded(blob, m.blocks), m.captures, m.images[j]) <==>
              MatchedFit(sha, m.captures, |m.captures|, contents[j], m.images[j].count)
    {
      ImageLoadsIff(sha, m, blob, sources, contents[j], m.images[j]);
    }
  }

  // ---------------------------------------------------------------- the conditions on the files

  function StoredIn(source: CaptureSource, lba: nat): Option<seq<byte>>
    requires Readable(source)
  {
    Stored(source.sectors, Stretches(source.sectors), lba)
  }

  /** No metadata sector is stored past the last sector of the disc. */
  ghost predicate KeepsToDisc(source: CaptureSource)
    requires Readable(source)
  {
    forall lba :: lba in METADATA && StoredIn(source, lba).Some? ==> lba <= BigWord(source.capacity, 0)
  }

  /** The last layer, unless it is the only one, has a second sector. */
  predicate LastLayerHasTwo(source: CaptureSource)
    requires Readable(source)
  {
    var layers: nat := source.structure[16] as int / 16;
    layers == 1 || DataEnd(source.structure, layers - 1) > PhysicalStart(source.structure, layers - 1)
  }

  /** The stored metadata sectors that are not all zero. */
  function Telling(source: CaptureSource): set<nat>
    requires Readable(source)
  {
    set lba | lba in METADATA && StoredIn(source, lba).Some? && StoredIn(source, lba).value != ZeroSector()
  }

  /** The image has the size of the captured disc and repeats its telling sectors, which suffice. */
  ghost predicate SameDisc(source: CaptureSource, content: seq<byte>)
    requires Readable(source)
  {
    && |content| / SECTOR == BigWord(source.capacity, 0) + 1
    && {32, 256} <= Telling(source) && |Telling(source)| >= 3
    && forall lba :: lba in Telling(source) ==>
         lba <= BigWord(source.capacity, 0) && StoredIn(source, lba).value == Sector(content, lba)
  }

  lemma OnDiscIff(sha: seq<byte> -> Digest, blocks: map<Digest, Span>, source: CaptureSource, c: Capture)
    requires CaptureOf(sha, blocks, source, c)
    ensures OnDisc(c) <==> KeepsToDisc(source)
  {
  }

  lemma BoundariesFitIff(sha: seq<byte> -> Digest, blocks: map<Digest, Span>, source: CaptureSource, c: Capture)
    requires CaptureOf(sha, blocks, source, c)
    ensures BoundariesFit(c) <==> LastLayerHasTwo(source)
  {
    var g, last := c.geometry, |c.geometry.segments| - 1;
    GeometryTiles(source.structure, source.capacity);
    assert g.segments[last] == SegmentOf(source.structure, last);
    forall i | 1 <= i < last ensures g.segments[i].firstLogical + 1 < g.sectorCount {
      FirstSegmentStartsLowest(g, last);
      assert g.segments[i].count >= 1 && g.segments[last].count >= 1;
    }
  }

  lemma MatchesIff(sha: seq<byte> -> Digest, blocks: map<Digest, Span>, source: CaptureSource, c: Capture,
                   content: seq<byte>, count: nat)
    requires CollisionFree(sha) && CaptureOf(sha, blocks, source, c) && count == |content| / SECTOR
    ensures Matches(sha, c, content, count) <==> SameDisc(source, content)
  {
    var compared := Nonzero(sha(ZeroSector()), c);
    forall lba: nat ensures lba in compared <==> lba in Telling(source) {
    }
    assert compared == Telling(source);
    forall lba | lba in compared
      ensures c.samples[lba] == sha(Sector(content, lba)) <==> StoredIn(source, lba).value == Sector(content, lba)
    {
    }
  }

  /** The captured disc is free of what makes the loader refuse it. */
  ghost predicate Loadable(source: CaptureSource, contents: seq<seq<byte>>)
    requires Readable(source)
  {
    KeepsToDisc(source) &&
    ((exists j :: 0 <= j < |contents| && SameDisc(source, contents[j])) ==> LastLayerHasTwo(source))
  }

  /**
   The loader accepts what the collector wrote exactly when no capture stores a metadata sector past its
   disc, and no capture that some image matches ends in a layer of one sector behind another layer.
   */
  lemma AcceptedIff(sha: seq<byte> -> Digest, sources: seq<CaptureSource>, contents: seq<seq<byte>>, m: Manifest,
                    blob: seq<byte>)
    requires CollisionFree(sha) && Collected(sha, sources, contents, m, blob) && DistinctNames(sources)
    ensures forall k :: 0 <= k < |sources| ==> Readable(sources[k])
    ensures Accepts(sha, m, blob) <==> forall k :: 0 <= k < |sources| ==> Loadable(sources[k], contents)
  {
    ManifestAcceptedIff(sha, sources, contents, m, blob);
    assert |m.captures| == |sources| && |m.images| == |contents|;
    forall k | 0 <= k < |sources|
      ensures Readable(sources[k])
      ensures OnDisc(m.captures[k]) <==> KeepsToDisc(sources[k])
      ensures BoundariesFit(m.captures[k]) <==> LastLayerHasTwo(sources[k])
    {
      assert CaptureOf(sha, m.blocks, sources[k], m.captures[k]);
      OnDiscIff(sha, m.blocks, sources[k], m.captures[k]);
      BoundariesFitIff(sha, m.blocks, sources[k], m.captures[k]);
    }
    forall j, k | 0 <= j < |contents| && 0 <= k < |sources|
      ensures Matches(sha, m.captures[k], contents[j], m.images[j].count) <==> SameDisc(sources[k], contents[j])
    {
      assert ImageOf(sha, m.blocks, m.captures, contents[j], m.images[j]);
      MatchesIff(sha, m.blocks, sources[k], m.captures[k], contents[j], m.images[j].count);
    }
    if Accepts(sha, m, blob) {
      forall j, k | 0 <= j < |contents| && 0 <= k < |sources| && SameDisc(sources[k], contents[j])
        ensures LastLayerHasTwo(sources[k])
      {
        assert MatchedFit(sha, m.captures, |m.captures|, contents[j], m.images[j].count);
      }
    }
  }

  /** More than 512 sectors on the disc, and two in every layer behind the first. */
  ghost predicate Ample(source: CaptureSource) {
    && Readable(source) && BigWord(source.capacity, 0) + 1 > 512
    && forall layer: nat :: 1 <= layer < source.structure[16] as int / 16 ==>
         DataEnd(source.structure, layer) > PhysicalStart(source.structure, layer)
  }

  lemma AmpleIsLoadable(source: CaptureSource, contents: seq<seq<byte>>)
    requires Ample(source)
    ensures Loadable(source, contents)
  {
  }

  /** Collections of ample discs are accepted. */
  lemma AmpleDiscsAreAccepted(sha: seq<byte> -> Digest, sources: seq<CaptureSource>, contents: seq<seq<byte>>,
                              m: Manifest, blob: seq<byte>)
    requires CollisionFree(sha) && Collected(sha, sources, contents, m, blob) && DistinctNames(sources)
    requires forall k :: 0 <= k < |sources| ==> Ample(sources[k])
    ensures Accepts(sha, m, blob)
  {
    AcceptedIff(sha, sources, contents, m, blob);
    forall k | 0 <= k < |sources| ensures Loadable(sources[k], contents) {
      AmpleIsLoadable(sources[k], contents);
    }
  }

  // ---------------------------------------------------------------- what comes back

  /** What an accepted manifest gives back for a capture: its structure, its capacity and its sampled sectors. */
  lemma CaptureComesBack(sha: seq<byte> -> Digest, sources: seq<CaptureSource>, contents: seq<seq<byte>>, m: Manifest,
                         blob: seq<byte>, k: nat)
    requires CollisionFree(sha) && Collected(sha, sources, contents, m, blob) && k < |sources|
    ensures var loaded, c := Loaded(blob, m.blocks), m.captures[k];
            && c.structure in loaded && loaded[c.structure] == sources[k].structure
            && c.capacity in loaded && loaded[c.capacity] == sources[k].capacity
    ensures var loaded, c := Loaded(blob, m.blocks), m.captures[k];
            forall lba :: lba in c.samples ==>
              && c.samples[lba] in loaded
              && Some(loaded[c.samples[lba]]) == Stored(sources[k].sectors, Stretches(sources[k].sectors), lba)
  {
    var c := m.captures[k];
    assert CaptureOf(sha, m.blocks, sources[k], c);
    LoadedIs(sha, m, blob, sources[k].structure);
    LoadedIs(sha, m, blob, sources[k].capacity);
    forall lba | lba in c.samples
      ensures c.samples[lba] in Loaded(blob, m.blocks)
      ensures Some(Loaded(blob, m.blocks)[c.samples[lba]]) ==
              Stored(sources[k].sectors, Stretches(sources[k].sectors), lba)
    {
      CaptureSamplesLoad(sha, m, blob, sources[k], c, lba);
    }
  }

  /** Sampled sectors of an image come back byte for byte. */
  lemma ImageComesBack(sha: seq<byte> -> Digest, sources: seq<CaptureSource>, contents: seq<seq<byte>>, m: Manifest,
                       blob: seq<byte>, j: nat, lba: nat)
    requires CollisionFree(sha) && Collected(sha, sources, contents, m, blob) && j < |contents|
    requires lba in m.images[j].samples
    ensures m.images[j].samples[lba] in Loaded(blob, m.blocks)
    ensures Loaded(blob, m.blocks)[m.images[j].samples[lba]] == Sector(contents[j], lba)
  {
    assert ImageOf(sha, m.blocks, m.captures, contents[j], m.images[j]);
    LoadedIs(sha, m, blob, Sector(contents[j], lba));
  }

  /** An association is about bytes: each compared sector is the same in capture and image, and not all zero. */
  lemma AssociatedSectorsAreEqual(sha: seq<byte> -> Digest, source: CaptureSource, blocks: map<Digest, Span>,
                                  c: Capture, content: seq<byte>, count: nat, lba: nat)
    requires CollisionFree(sha) && CaptureOf(sha, blocks, source, c) && Matches(sha, c, content, count)
    requires lba in Nonzero(sha(ZeroSector()), c)
    ensures Stored(source.sectors, Stretches(source.sectors), lba) == Some(Sector(content, lba))
    ensures Sector(content, lba) != ZeroSector()
  {
  }
}
