/**
 Saved disc fixtures: the manifest that the collector (scripts/build-mtk-disc-fixtures.py) writes, and
 the loader's demands on it (scripts/firmware_execution/disc.py, `load_fixtures`).
 Capture names are numbers.
 */
module Fixtures {
  import opened Images
  import opened DiscGeometry
  import opened BlockStore

  type Samples = map<nat, Digest>

  datatype Capture = Capture(name: nat, structure: Digest, capacity: Digest, geometry: Geometry, samples: Samples)
  datatype Association = Association(capture: nat, compared: set<nat>)
  datatype Image = Image(bytes: nat, count: nat, samples: Samples, associations: seq<Association>)
  datatype Manifest = Manifest(blocks: map<Digest, Span>, blobBytes: nat, blobDigest: Digest,
                               captures: seq<Capture>, images: seq<Image>)

  type Bytes = map<Digest, seq<byte>>

  function ZeroSector(): seq<byte> {
    seq(SECTOR, _ => 0)
  }

  // ---------------------------------------------------------------- the loader's demands

  /** Sampled sectors exist on the disc, and their blocks are whole sectors. */
  ghost predicate SamplesLoad(loaded: Bytes, samples: Samples, count: int) {
    forall lba :: lba in samples ==> lba < count && samples[lba] in loaded && |loaded[samples[lba]]| == SECTOR
  }

  /** The recorded geometry is the one its own bytes give. */
  ghost predicate CaptureLoads(loaded: Bytes, c: Capture) {
    && c.structure in loaded && c.capacity in loaded
    && Acceptable(loaded[c.structure], loaded[c.capacity])
    && c.geometry == Described(loaded[c.structure], loaded[c.capacity])
    && SamplesLoad(loaded, c.samples, c.geometry.sectorCount)
  }

  ghost predicate CapturesLoad(loaded: Bytes, captures: seq<Capture>) {
    && (forall k :: 0 <= k < |captures| ==> CaptureLoads(loaded, captures[k]))
    && forall j, k :: 0 <= j < k < |captures| ==> captures[j].name != captures[k].name
  }

  /** The sectors on both sides of a boundary were sampled. */
  predicate BoundarySampled(samples: Samples, boundary: int) {
    1 <= boundary && boundary - 1 in samples && boundary in samples && boundary + 1 in samples
  }

  predicate SameSector(zero: Digest, c: Capture, samples: Samples, lba: nat) {
    lba in c.samples && lba in samples && c.samples[lba] != zero && samples[lba] == c.samples[lba]
  }

  ghost predicate AssociationLoads(zero: Digest, c: Capture, image: Image, compared: set<nat>) {
    && c.geometry.sectorCount == image.count
    && {32, 256} <= compared && |compared| >= 3
    && (forall lba :: lba in compared ==> SameSector(zero, c, image.samples, lba))
    && forall i :: 1 <= i < |c.geometry.segments| ==>
         BoundarySampled(image.samples, c.geometry.segments[i].firstLogical)
  }

  /** The capture with a name; names are distinct by the time this is used. */
  function CaptureNamed(captures: seq<Capture>, n: nat, name: nat): Option<Capture>
    requires n <= |captures|
  {
    if n == 0 then None else if captures[n - 1].name == name then Some(captures[n - 1])
    else CaptureNamed(captures, n - 1, name)
  }

  ghost predicate ImageLoads(zero: Digest, loaded: Bytes, captures: seq<Capture>, image: Image) {
    && image.bytes == image.count * SECTOR
    && SamplesLoad(loaded, image.samples, image.count)
    && forall k :: 0 <= k < |image.associations| ==>
         var a := image.associations[k];
         var c := CaptureNamed(captures, |captures|, a.capture);
         c.Some? && AssociationLoads(zero, c.value, image, a.compared)
  }

  /** Everything the loader asserts. */
  ghost predicate Accepts(sha: seq<byte> -> Digest, m: Manifest, blob: seq<byte>) {
    && |blob| == m.blobBytes && sha(blob) == m.blobDigest
    && BlocksLoad(sha, blob, m.blocks)
    && CapturesLoad(Loaded(blob, m.blocks), m.captures)
    && forall k :: 0 <= k < |m.images| ==>
         ImageLoads(sha(ZeroSector()), Loaded(blob, m.blocks), m.captures, m.images[k])
  }

  // ---------------------------------------------------------------- the loader

  method CheckSamples(loaded: Bytes, samples: Samples, count: int) returns (ok: bool)
    ensures ok <==> SamplesLoad(loaded, samples, count)
  {
    var left := samples.Keys;
    while left != {}
      invariant left <= samples.Keys
      invariant forall lba :: lba in samples && lba !in left ==>
                  lba < count && samples[lba] in loaded && |loaded[samples[lba]]| == SECTOR
      decreases |left|
    {
      var lba :| lba in left;
      if !(lba < count && samples[lba] in loaded && |loaded[samples[lba]]| == SECTOR) {
        return false;
      }
      left := left - {lba};
    }
    ok := true;
  }

  method CheckCapture(loaded: Bytes, c: Capture) returns (ok: bool)
    ensures ok <==> CaptureLoads(loaded, c)
  {
    if c.structure !in loaded || c.capacity !in loaded {
      return false;
    }
    var derived := Derive(loaded[c.structure], loaded[c.capacity]);
    if derived != Some(c.geometry) {
      return false;
    }
    ok := CheckSamples(loaded, c.samples, c.geometry.sectorCount);
  }

  method CheckCaptures(loaded: Bytes, captures: seq<Capture>) returns (ok: bool)
    ensures ok <==> CapturesLoad(loaded, captures)
  {
    for k := 0 to |captures|
      invariant CapturesLoad(loaded, captures[..k])
    {
      for j := 0 to k
        invariant forall i :: 0 <= i < j ==> captures[i].name != captures[k].name
      {
        if captures[j].name == captures[k].name {
          return false;
        }
      }
      var loads := CheckCapture(loaded, captures[k]);
      if !loads {
        return false;
      }
    }
    assert captures[..|captures|] == captures;
    ok := true;
  }

  method CheckAssociation(zero: Digest, c: Capture, image: Image, compared: set<nat>) returns (ok: bool)
    ensures ok <==> AssociationLoads(zero, c, image, compared)
  {
    if c.geometry.sectorCount != image.count || !({32, 256} <= compared) || |compared| < 3 {
      return false;
    }
    var left := compared;
    while left != {}
      invariant left <= compared
      invariant forall lba :: lba in compared && lba !in left ==> SameSector(zero, c, image.samples, lba)
      decreases |left|
    {
      var lba :| lba in left;
      if !SameSector(zero, c, image.samples, lba) {
        return false;
      }
      left := left - {lba};
    }
    for i := 1 to Max(1, |c.geometry.segments|)
      invariant forall j :: 1 <= j < i ==> BoundarySampled(image.samples, c.geometry.segments[j].firstLogical)
    {
      if !BoundarySampled(image.samples, c.geometry.segments[i].firstLogical) {
        return false;
      }
    }
    ok := true;
  }

  method CheckImage(zero: Digest, loaded: Bytes, captures: seq<Capture>, image: Image) returns (ok: bool)
    ensures ok <==> ImageLoads(zero, loaded, captures, image)
  {
    if image.bytes != image.count * SECTOR {
      return false;
    }
    var sampled := CheckSamples(loaded, image.samples, image.count);
    if !sampled {
      return false;
    }
    for k := 0 to |image.associations|
      invariant forall j :: 0 <= j < k ==>
                  var a := image.associations[j];
                  var c := CaptureNamed(captures, |captures|, a.capture);
                  c.Some? && AssociationLoads(zero, c.value, image, a.compared)
    {
      var a := image.associations[k];
      var c := CaptureNamed(captures, |captures|, a.capture);
      if c.None? {
        return false;
      }
      var associated := CheckAssociation(zero, c.value, image, a.compared);
      if !associated {
        return false;
      }
    }
    ok := true;
  }

  /** Either one assertion fails, or every block comes back. */
  method Load(sha: seq<byte> -> Digest, m: Manifest, blob: seq<byte>) returns (loaded: Option<Bytes>)
    ensures loaded.Some? <==> Accepts(sha, m, blob)
    ensures loaded.Some? ==> loaded.value == Loaded(blob, m.blocks)
  {
    if |blob| != m.blobBytes || sha(blob) != m.blobDigest {
      return None;
    }
    loaded := LoadBlocks(sha, blob, m.blocks);
    if loaded.None? {
      return;
    }
    var good := CheckCaptures(loaded.value, m.captures);
    if !good {
      return None;
    }
    for k := 0 to |m.images|
      invariant loaded == Some(Loaded(blob, m.blocks))
      invariant forall j :: 0 <= j < k ==> ImageLoads(sha(ZeroSector()), loaded.value, m.captures, m.images[j])
    {
      good := CheckImage(sha(ZeroSector()), loaded.value, m.captures, m.images[k]);
      if !good {
        return None;
      }
    }
  }
}
