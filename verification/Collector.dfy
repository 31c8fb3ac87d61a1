/**
 The fixture collector (scripts/build-mtk-disc-fixtures.py): sampling sectors of captures and images,
 in ascending order, and associating images with captures; compared sectors are a set.
 */
module Collector {
  import opened Images
  import opened DiscGeometry
  import opened BlockStore
  import opened Fixtures
  import opened Listings

  const METADATA: set<nat> := {0, 16, 17, 18, 32, 33, 34, 256, 257, 512}

  /** One capture directory: its name, the three files read from it. */
  datatype CaptureSource = CaptureSource(name: nat, structure: seq<byte>, capacity: seq<byte>, sectors: seq<byte>)

  /** A stored stretch of sectors: the first sector, how many, and where they start in the file. */
  datatype Stretch = Stretch(start: nat, count: nat, offset: nat)

  function Sector(content: seq<byte>, lba: nat): seq<byte> {
    Slice(content, lba * SECTOR, (lba + 1) * SECTOR)
  }

  // ---------------------------------------------------------------- sectors of a capture

  predicate IsMap(file: seq<byte>) {
    Slice(file, 0, 4) == [0x42, 0x44, 0x53, 0x4d]
  }

  /** The stretches listed in the table of `n` entries, laid out one after another. */
  function Table(file: seq<byte>, count: nat, n: nat): (stretches: seq<Stretch>)
    requires 12 + count * 8 <= |file| && n <= count
    ensures |stretches| == n
  {
    if n == 0 then []
    else
      var before := Table(file, count, n - 1);
      before + [Stretch(Word(file, 12 + 8 * (n - 1)), Word(file, 16 + 8 * (n - 1)), End(before, 12 + count * 8))]
  }

  /** Where the last stretch ends in the file. */
  function End(stretches: seq<Stretch>, header: nat): nat {
    if stretches == [] then header
    else stretches[|stretches| - 1].offset + stretches[|stretches| - 1].count * SECTOR
  }

  /** The header, table and length that a sector file must have. */
  predicate WellFormed(file: seq<byte>) {
    if IsMap(file) then
      && 12 <= |file| && Word(file, 4) == 1 && Word(file, 8) <= 10000
      && 12 + Word(file, 8) * 8 <= |file|
      && End(Table(file, Word(file, 8), Word(file, 8)), 12 + Word(file, 8) * 8) == |file|
    else |file| % SECTOR == 0
  }

  function Stretches(file: seq<byte>): seq<Stretch>
    requires WellFormed(file)
  {
    if IsMap(file) then Table(file, Word(file, 8), Word(file, 8)) else [Stretch(0, |file| / SECTOR, 0)]
  }

  predicate Contains(s: Stretch, lba: nat) {
    s.start <= lba < s.start + s.count
  }

  /** The sector as the first stretch that contains it stores it. */
  function Stored(file: seq<byte>, stretches: seq<Stretch>, lba: nat): Option<seq<byte>> {
    if stretches == [] then None
    else if Contains(stretches[0], lba) then
      var at := stretches[0].offset + (lba - stretches[0].start) * SECTOR;
      Some(Slice(file, at, at + SECTOR))
    else Stored(file, stretches[1..], lba)
  }

  // What a sector file stores, told of the file alone.

  /** The sectors of the first `n` entries of the table, 8 bytes each behind the header of 12. */
  ghost function SectorsBefore(file: seq<byte>, n: nat): nat
    requires 12 + n * 8 <= |file|
  {
    if n == 0 then 0 else SectorsBefore(file, n - 1) + Word(file, 12 + 8 * (n - 1) + 4)
  }

  /** Entry `k` of the table says where its sectors start on the disc; in the file they follow those before. */
  lemma {:induction false} TableEntry(file: seq<byte>, count: nat, n: nat, k: nat)
    requires 12 + count * 8 <= |file| && k < n <= count
    ensures Table(file, count, n)[k] ==
            Stretch(Word(file, 12 + 8 * k), Word(file, 12 + 8 * k + 4),
                    12 + count * 8 + SectorsBefore(file, k) * SECTOR)
    decreases n
  {
    if k < n - 1 {
      TableEntry(file, count, n - 1, k);
    } else {
      TableEnds(file, count, k);
    }
  }

  lemma {:induction false} TableEnds(file: seq<byte>, count: nat, n: nat)
    requires 12 + count * 8 <= |file| && n <= count
    ensures End(Table(file, count, n), 12 + count * 8) == 12 + count * 8 + SectorsBefore(file, n) * SECTOR
    decreases n
  {
    if n > 0 {
      TableEnds(file, count, n - 1);
    }
  }

  /** The sector is taken from the first stretch that contains it. */
  lemma {:induction false} FirstStretchStores(file: seq<byte>, stretches: seq<Stretch>, lba: nat, k: nat)
    requires k < |stretches| && Contains(stretches[k], lba)
    requires forall j :: 0 <= j < k ==> !Contains(stretches[j], lba)
    ensures var at := stretches[k].offset + (lba - stretches[k].start) * SECTOR;
      Stored(file, stretches, lba) == Some(Slice(file, at, at + SECTOR))
  {
    if k > 0 {
      assert forall j :: 0 <= j < k - 1 ==> stretches[1..][j] == stretches[j + 1];
      FirstStretchStores(file, stretches[1..], lba, k - 1);
    }
  }

  /** Every stretch ends inside the file. */
  ghost predicate Inside(file: seq<byte>, stretches: seq<Stretch>) {
    forall k :: 0 <= k < |stretches| ==> stretches[k].offset + stretches[k].count * SECTOR <= |file|
  }

  lemma {:induction false} EndsGrow(stretches: seq<Stretch>, file: seq<byte>, count: nat, n: nat, k: nat)
    requires 12 + count * 8 <= |file| && k < n <= count && stretches == Table(file, count, n)
    ensures stretches[k].offset + stretches[k].count * SECTOR <= End(stretches, 12 + count * 8)
    decreases n
  {
    if k < n - 1 {
      EndsGrow(Table(file, count, n - 1), file, count, n - 1, k);
    }
  }

  lemma StretchesAreInside(file: seq<byte>)
    requires WellFormed(file)
    ensures Inside(file, Stretches(file))
  {
    if IsMap(file) {
      var count := Word(file, 8);
      forall k | 0 <= k < count ensures var s := Table(file, count, count)[k]; s.offset + s.count * SECTOR <= |file| {
        EndsGrow(Table(file, count, count), file, count, count, k);
      }
    }
  }

  lemma {:induction false} StoredIsWhole(file: seq<byte>, stretches: seq<Stretch>, lba: nat)
    requires Inside(file, stretches)
    ensures Stored(file, stretches, lba).Some? ==> |Stored(file, stretches, lba).value| == SECTOR
    ensures Stored(file, stretches, lba).Some? <==> exists k :: 0 <= k < |stretches| && Contains(stretches[k], lba)
  {
    if stretches != [] {
      if Contains(stretches[0], lba) {
        assert stretches[0].offset + stretches[0].count * SECTOR <= |file|;
      } else {
        StoredIsWhole(file, stretches[1..], lba);
        if k :| 0 <= k < |stretches| && Contains(stretches[k], lba) {
          assert Contains(stretches[1..][k - 1], lba);
        }
      }
    }
  }

  /** Entry `k` of the table holds the sector. */
  ghost predicate EntryHolds(file: seq<byte>, k: nat, lba: nat)
    requires 12 + (k + 1) * 8 <= |file|
  {
    var start := Word(file, 12 + 8 * k);
    start <= lba < start + Word(file, 12 + 8 * k + 4)
  }

  /** The first entry that holds the sector says where it is. */
  ghost predicate EntryGives(file: seq<byte>, count: nat, k: nat, lba: nat, sector: seq<byte>)
    requires 12 + count * 8 <= |file| && k < count
  {
    && EntryHolds(file, k, lba) && (forall j :: 0 <= j < k ==> !EntryHolds(file, j, lba))
    && sector == Slice(file, EntryPlace(file, count, k, lba), EntryPlace(file, count, k, lba) + 2048)
  }

  /** Behind the header and the table, and behind the sectors of the entries before. */
  ghost function EntryPlace(file: seq<byte>, count: nat, k: nat, lba: nat): nat
    requires 12 + count * 8 <= |file| && k < count && EntryHolds(file, k, lba)
  {
    12 + count * 8 + SectorsBefore(file, k) * 2048 + (lba - Word(file, 12 + 8 * k)) * 2048
  }

  /** A file of the two formats: a table behind the magic, or just sectors. */
  ghost predicate IsSectorFile(file: seq<byte>) {
    if |file| >= 4 && file[..4] == [0x42, 0x44, 0x53, 0x4d] then
      && 12 <= |file| && Word(file, 4) == 1 && Word(file, 8) <= 10000 && 12 + Word(file, 8) * 8 <= |file|
      && 12 + Word(file, 8) * 8 + SectorsBefore(file, Word(file, 8)) * 2048 == |file|
    else |file| % 2048 == 0
  }

  ghost predicate GivesSector(file: seq<byte>, lba: nat, sector: seq<byte>)
    requires IsSectorFile(file)
  {
    if |file| >= 4 && file[..4] == [0x42, 0x44, 0x53, 0x4d]
    then exists k :: 0 <= k < Word(file, 8) && EntryGives(file, Word(file, 8), k, lba, sector)
    else lba * 2048 + 2048 <= |file| && sector == file[lba * 2048..lba * 2048 + 2048]
  }

  lemma MagicIff(file: seq<byte>)
    ensures IsMap(file) <==> |file| >= 4 && file[..4] == [0x42, 0x44, 0x53, 0x4d]
  {
    assert |file| >= 4 ==> Slice(file, 0, 4) == file[..4];
  }

  lemma WellFormedIff(file: seq<byte>)
    ensures WellFormed(file) <==> IsSectorFile(file)
  {
    MagicIff(file);
    if IsMap(file) && 12 <= |file| && 12 + Word(file, 8) * 8 <= |file| {
      TableEnds(file, Word(file, 8), Word(file, 8));
    }
  }

  lemma EntryIff(file: seq<byte>, count: nat, k: nat, lba: nat)
    requires 12 + count * 8 <= |file| && k < count
    ensures Contains(Table(file, count, count)[k], lba) <==> EntryHolds(file, k, lba)
  {
    TableEntry(file, count, count, k);
  }

  lemma FirstEntryIff(file: seq<byte>, count: nat, k: nat, lba: nat)
    requires 12 + count * 8 <= |file| && k < count
    ensures EntryHolds(file, k, lba) && (forall j :: 0 <= j < k ==> !EntryHolds(file, j, lba)) <==>
            var table := Table(file, count, count);
            Contains(table[k], lba) && forall j :: 0 <= j < k ==> !Contains(table[j], lba)
  {
    var table := Table(file, count, count);
    forall j: nat | j <= k ensures Contains(table[j], lba) <==> EntryHolds(file, j, lba) {
      EntryIff(file, count, j, lba);
    }
  }

  lemma EntryIsPlace(file: seq<byte>, count: nat, k: nat, lba: nat)
    requires 12 + count * 8 <= |file| && k < count && EntryHolds(file, k, lba)
    ensures var s := Table(file, count, count)[k];
      s.start <= lba && s.offset + (lba - s.start) * SECTOR == EntryPlace(file, count, k, lba)
  {
    TableEntry(file, count, count, k);
  }

  /** The first entry that holds the sector stores it. */
  lemma EntryStores(file: seq<byte>, count: nat, k: nat, lba: nat)
    requires 12 + count * 8 <= |file| && k < count
    requires EntryHolds(file, k, lba) && forall j :: 0 <= j < k ==> !EntryHolds(file, j, lba)
    ensures Stored(file, Table(file, count, count), lba).Some?
    ensures EntryGives(file, count, k, lba, Stored(file, Table(file, count, count), lba).value)
  {
    FirstEntryIff(file, count, k, lba);
    EntryIsPlace(file, count, k, lba);
    FirstStretchStores(file, Table(file, count, count), lba, k);
  }

  /** The first of the wanted indices. */
  lemma {:induction false} FirstContaining(stretches: seq<Stretch>, lba: nat, n: nat) returns (k: nat)
    requires n < |stretches| && Contains(stretches[n], lba)
    ensures k <= n && Contains(stretches[k], lba) && forall j :: 0 <= j < k ==> !Contains(stretches[j], lba)
  {
    k := n;
    if j: nat :| j < n && Contains(stretches[j], lba) {
      k := FirstContaining(stretches, lba, j);
    }
  }

  lemma StoredComesFromEntry(file: seq<byte>, count: nat, lba: nat)
    requires 12 + count * 8 <= |file| && Inside(file, Table(file, count, count))
    requires Stored(file, Table(file, count, count), lba).Some?
    ensures exists k :: 0 <= k < count &&
                        EntryGives(file, count, k, lba, Stored(file, Table(file, count, count), lba).value)
  {
    var table := Table(file, count, count);
    StoredIsWhole(file, table, lba);
    var n: nat :| n < |table| && Contains(table[n], lba);
    var k := FirstContaining(table, lba, n);
    FirstEntryIff(file, count, k, lba);
    EntryStores(file, count, k, lba);
  }

  /** What is stored under a sector number is what the file gives for it. */
  lemma StoredIff(file: seq<byte>, lba: nat, sector: seq<byte>)
    requires WellFormed(file) && IsSectorFile(file)
    ensures Stored(file, Stretches(file), lba) == Some(sector) <==> GivesSector(file, lba, sector)
  {
    MagicIff(file);
    if IsMap(file) {
      var count := Word(file, 8);
      StretchesAreInside(file);
      if Stored(file, Stretches(file), lba) == Some(sector) {
        StoredComesFromEntry(file, count, lba);
      }
      if k :| 0 <= k < count && EntryGives(file, count, k, lba, sector) {
        EntryStores(file, count, k, lba);
      }
    } else if lba * 2048 + 2048 <= |file| {
      assert Slice(file, lba * SECTOR, lba * SECTOR + SECTOR) == file[lba * 2048..lba * 2048 + 2048];
    }
  }

  /** The metadata sectors that the file stores, each whole. */
  ghost predicate IsSampleOf(file: seq<byte>, samples: map<nat, seq<byte>>)
    requires WellFormed(file)
  {
    && (forall lba :: lba in samples <==> lba in METADATA && Stored(file, Stretches(file), lba).Some?)
    && forall lba :: lba in samples ==>
         |samples[lba]| == SECTOR && Stored(file, Stretches(file), lba) == Some(samples[lba])
  }

  /** The samples are what the file gives for the metadata sectors, as far as it gives one. */
  ghost predicate GivesMetadata(file: seq<byte>, samples: map<nat, seq<byte>>)
    requires IsSectorFile(file)
  {
    forall lba, sector ::
      lba in samples && samples[lba] == sector <==> lba in METADATA && GivesSector(file, lba, sector)
  }

  lemma SamplesAreGiven(file: seq<byte>, samples: map<nat, seq<byte>>)
    requires WellFormed(file) && IsSectorFile(file) && IsSampleOf(file, samples)
    ensures GivesMetadata(file, samples)
  {
    forall lba: nat, sector: seq<byte>
      ensures lba in samples && samples[lba] == sector <==> lba in METADATA && GivesSector(file, lba, sector)
    {
      StoredIff(file, lba, sector);
    }
  }

  method ReadTable(file: seq<byte>, count: nat) returns (stretches: seq<Stretch>, end: nat)
    requires 12 + count * 8 <= |file|
    ensures stretches == Table(file, count, count) && end == End(stretches, 12 + count * 8)
  {
    stretches, end := [], 12 + count * 8;
    for n := 0 to count
      invariant stretches == Table(file, count, n) && end == End(stretches, 12 + count * 8)
    {
      var start, length := Word(file, 12 + 8 * n), Word(file, 16 + 8 * n);
      stretches := stretches + [Stretch(start, length, end)];
      end := end + length * SECTOR;
    }
  }

  /** None when the file does not have the shape it must have. */
  method CaptureSamples(file: seq<byte>) returns (samples: Option<map<nat, seq<byte>>>)
    ensures samples.Some? <==> WellFormed(file)
    ensures samples.Some? ==> IsSampleOf(file, samples.value)
    ensures samples.Some? <==> IsSectorFile(file)
    ensures samples.Some? ==> GivesMetadata(file, samples.value)
  {
    WellFormedIff(file);
    var stretches: seq<Stretch>;
    if IsMap(file) {
      if |file| < 12 || Word(file, 4) != 1 || Word(file, 8) > 10000 || |file| < 12 + Word(file, 8) * 8 {
        return None;
      }
      var end;
      stretches, end := ReadTable(file, Word(file, 8));
      if end != |file| {
        return None;
      }
    } else {
      if |file| % SECTOR != 0 {
        return None;
      }
      stretches := [Stretch(0, |file| / SECTOR, 0)];
    }
    StretchesAreInside(file);
    var found: map<nat, seq<byte>> := map[];
    var left := METADATA;
    while left != {}
      invariant left <= METADATA && found.Keys <= METADATA - left
      invariant forall lba :: lba in METADATA - left ==> (lba in found <==> Stored(file, stretches, lba).Some?)
      invariant forall lba :: lba in found ==>
                  |found[lba]| == SECTOR && Stored(file, stretches, lba) == Some(found[lba])
      decreases |left|
    {
      var lba :| lba in left;
      StoredIsWhole(file, stretches, lba);
      var sector := Stored(file, stretches, lba);
      if sector.Some? {
        found := found[lba := sector.value];
      }
      left := left - {lba};
    }
    SamplesAreGiven(file, found);
    samples := Some(found);
  }

  // ---------------------------------------------------------------- captures

  /** The collector's own assertions hold on this directory. */
  predicate Readable(source: CaptureSource) {
    WellFormed(source.sectors) && Acceptable(source.structure, source.capacity)
  }

  /** What the manifest records of a capture, with every block it names stored. */
  ghost predicate CaptureOf(sha: seq<byte> -> Digest, blocks: map<Digest, Span>, source: CaptureSource, c: Capture) {
    && Readable(source)
    && c.name == source.name && c.geometry == Described(source.structure, source.capacity)
    && c.structure == sha(source.structure) && c.structure in blocks
    && c.capacity == sha(source.capacity) && c.capacity in blocks
    && SamplesOfCapture(sha, blocks, source.sectors, c.samples)
  }

  ghost predicate SamplesOfCapture(sha: seq<byte> -> Digest, blocks: map<Digest, Span>, file: seq<byte>,
                                   samples: Samples)
    requires WellFormed(file)
  {
    forall lba ::
      && (lba in samples <==> lba in METADATA && Stored(file, Stretches(file), lba).Some?)
      && (lba in samples ==> samples[lba] in blocks && samples[lba] == sha(Stored(file, Stretches(file), lba).value))
  }

  /** A store that only holds blocks with bytes in them. */
  ghost predicate Sound(store: Store)
    reads store
  {
    store.Valid() && NoneEmpty(store.blocks)
  }

  method SaveSamples(store: Store, file: seq<byte>, sectors: map<nat, seq<byte>>) returns (samples: Samples)
    requires Sound(store) && WellFormed(file) && IsSampleOf(file, sectors)
    modifies store
    ensures Sound(store) && old(store.blocks).Keys <= store.blocks.Keys
    ensures SamplesOfCapture(store.sha, store.blocks, file, samples)
  {
    samples := map[];
    var left := sectors.Keys;
    while left != {}
      invariant Sound(store) && old(store.blocks).Keys <= store.blocks.Keys
      invariant left <= sectors.Keys && samples.Keys == sectors.Keys - left
      invariant forall lba :: lba in samples ==> samples[lba] in store.blocks && samples[lba] == store.sha(sectors[lba])
      decreases |left|
    {
      var lba :| lba in left;
      var digest := store.Save(sectors[lba]);
      samples := samples[lba := digest];
      left := left - {lba};
    }
  }

  method CollectCapture(store: Store, source: CaptureSource) returns (capture: Option<Capture>)
    requires Sound(store)
    modifies store
    ensures Sound(store) && old(store.blocks).Keys <= store.blocks.Keys
    ensures capture.Some? <==> Readable(source)
    ensures capture.Some? ==> CaptureOf(store.sha, store.blocks, source, capture.value)
  {
    var geometry := Derive(source.structure, source.capacity);
    var sectors := CaptureSamples(source.sectors);
    if geometry.None? || sectors.None? {
      return None;
    }
    var structure := store.Save(source.structure);
    var capacity := store.Save(source.capacity);
    var samples := SaveSamples(store, source.sectors, sectors.value);
    capture := Some(Capture(source.name, structure, capacity, geometry.value, samples));
  }

  lemma CaptureStays(sha: seq<byte> -> Digest, before: map<Digest, Span>, after: map<Digest, Span>,
                     source: CaptureSource, c: Capture)
    requires CaptureOf(sha, before, source, c) && before.Keys <= after.Keys
    ensures CaptureOf(sha, after, source, c)
  {
  }

  ghost predicate CapturesOf(sha: seq<byte> -> Digest, blocks: map<Digest, Span>, sources: seq<CaptureSource>,
                             captures: seq<Capture>)
  {
    |captures| == |sources| && forall k :: 0 <= k < |captures| ==> CaptureOf(sha, blocks, sources[k], captures[k])
  }

  lemma OneMoreCapture(sha: seq<byte> -> Digest, before: map<Digest, Span>, after: map<Digest, Span>,
                       sources: seq<CaptureSource>, n: nat, captures: seq<Capture>, c: Capture)
    requires n < |sources| && CapturesOf(sha, before, sources[..n], captures) && before.Keys <= after.Keys
    requires CaptureOf(sha, after, sources[n], c)
    ensures CapturesOf(sha, after, sources[..n + 1], captures + [c])
  {
    forall k | 0 <= k < n ensures CaptureOf(sha, after, sources[k], captures[k]) {
      CaptureStays(sha, before, after, sources[..n][k], captures[k]);
    }
  }

  method CollectCaptures(store: Store, sources: seq<CaptureSource>) returns (captures: Option<seq<Capture>>)
    requires Sound(store)
    modifies store
    ensures Sound(store) && old(store.blocks).Keys <= store.blocks.Keys
    ensures captures.None? ==> exists k :: 0 <= k < |sources| && !Readable(sources[k])
    ensures captures.Some? ==> CapturesOf(store.sha, store.blocks, sources, captures.value)
  {
    var found: seq<Capture> := [];
    for n := 0 to |sources|
      invariant Sound(store) && old(store.blocks).Keys <= store.blocks.Keys
      invariant CapturesOf(store.sha, store.blocks, sources[..n], found)
    {
      ghost var before := store.blocks;
      var capture := CollectCapture(store, sources[n]);
      if capture.None? {
        return None;
      }
      OneMoreCapture(store.sha, before, store.blocks, sources, n, found, capture.value);
      found := found + [capture.value];
    }
    assert sources[..|sources|] == sources;
    captures := Some(found);
  }

  // ---------------------------------------------------------------- images

  /** Sampled sectors of an image: each in range, under the digest of its bytes, and stored. */
  ghost predicate SamplesOfImage(sha: seq<byte> -> Digest, blocks: map<Digest, Span>, content: seq<byte>, count: nat,
                                 samples: Samples)
  {
    forall lba :: lba in samples ==> lba < count && samples[lba] in blocks && samples[lba] == sha(Sector(content, lba))
  }

  method Sample(store: Store, content: seq<byte>, count: nat, samples: Samples, lba: int) returns (grown: Samples)
    requires Sound(store) && |content| == count * SECTOR
    requires SamplesOfImage(store.sha, store.blocks, content, count, samples)
    modifies store
    ensures Sound(store) && old(store.blocks).Keys <= store.blocks.Keys
    ensures SamplesOfImage(store.sha, store.blocks, content, count, grown)
    ensures forall other: nat :: other in grown <==> other in samples || (other == lba && lba < count)
  {
    grown := samples;
    if 0 <= lba < count && lba !in samples {
      var digest := store.Save(Sector(content, lba));
      grown := grown[lba := digest];
    }
  }

  /** The sectors of an image that are sampled whatever its captures. */
  predicate Selected(count: nat, lba: nat) {
    || lba in METADATA
    || lba == count / 2 || lba == count - 1 || lba == count - 256
    || 0xff_ffff <= lba <= 0x100_0001
    || 0x1ff_ffff <= lba <= 0x200_0001
  }

  method SampleSelected(store: Store, content: seq<byte>, count: nat) returns (samples: Samples)
    requires Sound(store) && |content| == count * SECTOR
    modifies store
    ensures Sound(store) && old(store.blocks).Keys <= store.blocks.Keys
    ensures SamplesOfImage(store.sha, store.blocks, content, count, samples)
    ensures forall lba: nat :: lba in samples <==> lba < count && Selected(count, lba)
  {
    samples := map[];
    for lba := 0 to count
      invariant Sound(store) && old(store.blocks).Keys <= store.blocks.Keys
      invariant SamplesOfImage(store.sha, store.blocks, content, count, samples)
      invariant forall other: nat :: other in samples <==> other < lba && Selected(count, other)
    {
      if Selected(count, lba) {
        samples := Sample(store, content, count, samples, lba);
      }
    }
  }

  // ---------------------------------------------------------------- associations

  /** The sampled sectors of a capture that are not all zero. */
  function Nonzero(zero: Digest, c: Capture): set<nat> {
    set lba | lba in c.samples && c.samples[lba] != zero
  }

  /** The image has the capture's size, and its sectors where the capture has enough to compare. */
  ghost predicate Matches(sha: seq<byte> -> Digest, c: Capture, content: seq<byte>, count: nat) {
    var compared := Nonzero(sha(ZeroSector()), c);
    && c.geometry.sectorCount == count
    && {32, 256} <= compared && |compared| >= 3
    && forall lba :: lba in compared ==> lba < count && c.samples[lba] == sha(Sector(content, lba))
  }

  function AssociationWith(zero: Digest, c: Capture): Association {
    Association(c.name, Nonzero(zero, c))
  }

  ghost function AssociationsOf(sha: seq<byte> -> Digest, captures: seq<Capture>, n: nat, content: seq<byte>,
                                count: nat)
    : seq<Association>
    requires n <= |captures|
  {
    if n == 0 then []
    else
      var before := AssociationsOf(sha, captures, n - 1, content, count);
      if Matches(sha, captures[n - 1], content, count)
      then before + [AssociationWith(sha(ZeroSector()), captures[n - 1])]
      else before
  }

  ghost function Matching(sha: seq<byte> -> Digest, captures: seq<Capture>, content: seq<byte>, count: nat)
    : nat -> bool
  {
    (k: nat) => k < |captures| && Matches(sha, captures[k], content, count)
  }

  /** One association for each of the first `n` captures that the image matches, in their order. */
  ghost predicate ListsMatches(sha: seq<byte> -> Digest, captures: seq<Capture>, n: nat, content: seq<byte>,
                               count: nat, associations: seq<Association>, places: seq<nat>)
  {
    && |places| == |associations| && Selects(n, Matching(sha, captures, content, count), places)
    && forall j :: 0 <= j < |places| ==>
         places[j] < |captures| && associations[j] == AssociationWith(sha(ZeroSector()), captures[places[j]])
  }

  lemma OneMoreMatch(sha: seq<byte> -> Digest, captures: seq<Capture>, n: nat, content: seq<byte>, count: nat,
                     associations: seq<Association>, places: seq<nat>, more: seq<Association>)
    returns (more': seq<nat>)
    requires n < |captures| && ListsMatches(sha, captures, n, content, count, associations, places)
    requires more == if Matches(sha, captures[n], content, count)
                     then associations + [AssociationWith(sha(ZeroSector()), captures[n])]
                     else associations
    ensures ListsMatches(sha, captures, n + 1, content, count, more, more')
  {
    SelectOneMore(n, Matching(sha, captures, content, count), places);
    more' := if Matches(sha, captures[n], content, count) then places + [n] else places;
  }

  lemma {:induction false} AssociationsAreListed(sha: seq<byte> -> Digest, captures: seq<Capture>, n: nat,
                                                 content: seq<byte>, count: nat)
    returns (places: seq<nat>)
    requires n <= |captures|
    ensures ListsMatches(sha, captures, n, content, count, AssociationsOf(sha, captures, n, content, count), places)
  {
    if n == 0 {
      places := [];
    } else {
      var before := AssociationsOf(sha, captures, n - 1, content, count);
      places := AssociationsAreListed(sha, captures, n - 1, content, count);
      places := OneMoreMatch(sha, captures, n - 1, content, count, before, places,
        AssociationsOf(sha, captures, n, content, count));
    }
  }

  /** The sectors before, at and behind a boundary. */
  predicate Near(boundary: int, lba: int) {
    boundary - 1 <= lba <= boundary + 1
  }

  /** Around the start of one of the later layers, among the first `n` layers. */
  ghost predicate NearBoundary(c: Capture, n: nat, lba: int) {
    exists i :: 1 <= i < n && i < |c.geometry.segments| && Near(c.geometry.segments[i].firstLogical, lba)
  }

  /** Around a layer boundary of one of the first `n` captures that the image matches. */
  ghost predicate NearMatched(sha: seq<byte> -> Digest, captures: seq<Capture>, n: nat, content: seq<byte>, count: nat,
                              lba: int)
    requires n <= |captures|
  {
    exists k :: 0 <= k < n && Matches(sha, captures[k], content, count)
                && NearBoundary(captures[k], |captures[k].geometry.segments|, lba)
  }

  method Compare(samples: Samples, c: Capture, compared: set<nat>) returns (equal: bool)
    requires forall lba :: lba in compared ==> lba in samples && lba in c.samples
    ensures equal <==> forall lba :: lba in compared ==> samples[lba] == c.samples[lba]
  {
    var left := compared;
    while left != {}
      invariant left <= compared
      invariant forall lba :: lba in compared && lba !in left ==> samples[lba] == c.samples[lba]
      decreases |left|
    {
      var lba :| lba in left;
      if samples[lba] != c.samples[lba] {
        return false;
      }
      left := left - {lba};
    }
    equal := true;
  }

  /** The compared sectors, when the image matches the capture. */
  method Associate(sha: seq<byte> -> Digest, ghost content: seq<byte>, count: nat, samples: Samples, c: Capture)
    returns (compared: Option<set<nat>>)
    requires forall lba :: lba in samples ==> lba < count && samples[lba] == sha(Sector(content, lba))
    requires c.samples.Keys <= samples.Keys
    ensures compared.Some? <==> Matches(sha, c, content, count)
    ensures compared.Some? ==> compared.value == Nonzero(sha(ZeroSector()), c)
  {
    if c.geometry.sectorCount != count {
      return None;
    }
    var lbas := set lba | lba in c.samples && c.samples[lba] != sha(ZeroSector()) && lba in samples;
    assert lbas == Nonzero(sha(ZeroSector()), c);
    if 32 !in lbas || 256 !in lbas || |lbas| < 3 {
      return None;
    }
    var equal := Compare(samples, c, lbas);
    compared := if equal then Some(lbas) else None;
  }

  method SampleAround(store: Store, content: seq<byte>, count: nat, samples: Samples, boundary: int)
    returns (grown: Samples)
    requires Sound(store) && |content| == count * SECTOR
    requires SamplesOfImage(store.sha, store.blocks, content, count, samples)
    modifies store
    ensures Sound(store) && old(store.blocks).Keys <= store.blocks.Keys
    ensures SamplesOfImage(store.sha, store.blocks, content, count, grown)
    ensures forall lba: nat :: lba in grown <==> lba in samples || (lba < count && Near(boundary, lba))
  {
    grown := Sample(store, content, count, samples, boundary - 1);
    grown := Sample(store, content, count, grown, boundary);
    grown := Sample(store, content, count, grown, boundary + 1);
  }

  lemma OneMoreBoundary(c: Capture, n: nat, lba: int)
    requires 1 <= n < |c.geometry.segments|
    ensures NearBoundary(c, n + 1, lba) <==> NearBoundary(c, n, lba) || Near(c.geometry.segments[n].firstLogical, lba)
  {
  }

  method SampleBoundaries(store: Store, content: seq<byte>, count: nat, samples: Samples, c: Capture)
    returns (grown: Samples)
    requires Sound(store) && |content| == count * SECTOR
    requires SamplesOfImage(store.sha, store.blocks, content, count, samples)
    modifies store
    ensures Sound(store) && old(store.blocks).Keys <= store.blocks.Keys
    ensures SamplesOfImage(store.sha, store.blocks, content, count, grown)
    ensures forall lba: nat ::
              lba in grown <==> lba in samples || (lba < count && NearBoundary(c, |c.geometry.segments|, lba))
  {
    grown := samples;
    for n := 1 to Max(1, |c.geometry.segments|)
      invariant Sound(store) && old(store.blocks).Keys <= store.blocks.Keys
      invariant SamplesOfImage(store.sha, store.blocks, content, count, grown)
      invariant forall lba: nat :: lba in grown <==> lba in samples || (lba < count && NearBoundary(c, n, lba))
    {
      grown := SampleAround(store, content, count, grown, c.geometry.segments[n].firstLogical);
      forall lba: nat
        ensures lba in grown <==> lba in samples || (lba < count && NearBoundary(c, n + 1, lba))
      {
        OneMoreBoundary(c, n, lba);
      }
    }
  }

  /** The sectors sampled of an image, after it was compared with the first `n` captures. */
  ghost predicate Sampled(sha: seq<byte> -> Digest, captures: seq<Capture>, n: nat, content: seq<byte>, count: nat,
                          lba: nat)
    requires n <= |captures|
  {
    lba < count && (Selected(count, lba) || NearMatched(sha, captures, n, content, count, lba))
  }

  /** What one image's associations and samples are after the first `n` captures. */
  ghost predicate Associated(sha: seq<byte> -> Digest, captures: seq<Capture>, n: nat, content: seq<byte>, count: nat,
                             samples: Samples, associations: seq<Association>)
    requires n <= |captures|
  {
    && associations == AssociationsOf(sha, captures, n, content, count)
    && forall lba: nat :: lba in samples <==> Sampled(sha, captures, n, content, count, lba)
  }

  lemma SampledOneMore(sha: seq<byte> -> Digest, captures: seq<Capture>, n: nat, content: seq<byte>, count: nat,
                       lba: nat)
    requires n < |captures|
    ensures Sampled(sha, captures, n + 1, content, count, lba) <==>
            || Sampled(sha, captures, n, content, count, lba)
            || (lba < count && Matches(sha, captures[n], content, count)
                && NearBoundary(captures[n], |captures[n].geometry.segments|, lba))
  {
  }

  /** Captures are sampled at metadata sectors only. */
  ghost predicate MetadataOnly(captures: seq<Capture>) {
    forall k :: 0 <= k < |captures| ==> captures[k].samples.Keys <= METADATA
  }

  /** The first `n` captures have been compared with the image. */
  ghost predicate Comparing(store: Store, captures: seq<Capture>, n: nat, content: seq<byte>, count: nat,
                            samples: Samples, associations: seq<Association>)
    reads store
  {
    && Sound(store) && |content| == count * SECTOR && n <= |captures| && 513 <= count && MetadataOnly(captures)
    && SamplesOfImage(store.sha, store.blocks, content, count, samples)
    && Associated(store.sha, captures, n, content, count, samples, associations)
  }

  /** One capture against the image. */
  method AssociateOne(store: Store, captures: seq<Capture>, n: nat, content: seq<byte>, count: nat, samples: Samples,
                      associations: seq<Association>)
    returns (grown: Samples, more: seq<Association>)
    requires Comparing(store, captures, n, content, count, samples, associations) && n < |captures|
    modifies store
    ensures Comparing(store, captures, n + 1, content, count, grown, more)
    ensures old(store.blocks).Keys <= store.blocks.Keys
  {
    assert forall lba: nat :: lba in METADATA ==> lba < count && Selected(count, lba);
    grown, more := samples, associations;
    var compared := Associate(store.sha, content, count, samples, captures[n]);
    if compared.Some? {
      more := more + [Association(captures[n].name, compared.value)];
      grown := SampleBoundaries(store, content, count, samples, captures[n]);
    }
    forall lba: nat ensures lba in grown <==> Sampled(store.sha, captures, n + 1, content, count, lba) {
      SampledOneMore(store.sha, captures, n, content, count, lba);
    }
  }

  method AssociateAll(store: Store, captures: seq<Capture>, content: seq<byte>, count: nat, samples: Samples)
    returns (associations: seq<Association>, grown: Samples)
    requires Comparing(store, captures, 0, content, count, samples, [])
    modifies store
    ensures Comparing(store, captures, |captures|, content, count, grown, associations)
    ensures old(store.blocks).Keys <= store.blocks.Keys
  {
    associations, grown := [], samples;
    for n := 0 to |captures|
      invariant Comparing(store, captures, n, content, count, grown, associations)
      invariant old(store.blocks).Keys <= store.blocks.Keys
    {
      grown, associations := AssociateOne(store, captures, n, content, count, grown, associations);
    }
  }

  // ---------------------------------------------------------------- the manifest

  /** Whole sectors, and at least 513 of them. */
  predicate Collectable(content: seq<byte>) {
    |content| % SECTOR == 0 && |content| >= 513 * SECTOR
  }

  /** What the manifest records of an image. */
  ghost predicate ImageOf(sha: seq<byte> -> Digest, blocks: map<Digest, Span>, captures: seq<Capture>,
                          content: seq<byte>, image: Image)
  {
    && Collectable(content)
    && image.bytes == |content| && image.count == |content| / SECTOR
    && SamplesOfImage(sha, blocks, content, image.count, image.samples)
    && Associated(sha, captures, |captures|, content, image.count, image.samples, image.associations)
  }

  /** The sector is one of a fixed choice, or next to the start of a later layer of a capture that the image matches. */
  ghost predicate IsSampled(sha: seq<byte> -> Digest, captures: seq<Capture>, content: seq<byte>, count: nat,
                            lba: nat)
  {
    || lba in {0, 16, 17, 18, 32, 33, 34, 256, 257, 512}
    || lba as int in {count / 2, count - 1, count - 256}
    || lba in {0xff_ffff, 0x100_0000, 0x100_0001, 0x1ff_ffff, 0x200_0000, 0x200_0001}
    || exists k, i :: 0 <= k < |captures| && Matches(sha, captures[k], content, count)
                      && 1 <= i < |captures[k].geometry.segments|
                      && -1 <= lba - captures[k].geometry.segments[i].firstLogical <= 1
  }

  /** The associations of an image are its matches, and its samples the sectors that are to be sampled. */
  ghost predicate DescribesImage(sha: seq<byte> -> Digest, captures: seq<Capture>, content: seq<byte>, image: Image) {
    && (exists places ::
          ListsMatches(sha, captures, |captures|, content, image.count, image.associations, places))
    && forall lba: nat ::
         lba in image.samples <==> lba < image.count && IsSampled(sha, captures, content, image.count, lba)
  }

  lemma SampledIff(sha: seq<byte> -> Digest, captures: seq<Capture>, content: seq<byte>, count: nat, lba: nat)
    ensures Sampled(sha, captures, |captures|, content, count, lba) <==>
            lba < count && IsSampled(sha, captures, content, count, lba)
  {
    if NearMatched(sha, captures, |captures|, content, count, lba) {
      var k :| 0 <= k < |captures| && Matches(sha, captures[k], content, count)
               && NearBoundary(captures[k], |captures[k].geometry.segments|, lba);
      var i :| 1 <= i < |captures[k].geometry.segments| && Near(captures[k].geometry.segments[i].firstLogical, lba);
      assert IsSampled(sha, captures, content, count, lba);
    }
    if k, i :| 0 <= k < |captures| && Matches(sha, captures[k], content, count)
               && 1 <= i < |captures[k].geometry.segments|
               && -1 <= lba - captures[k].geometry.segments[i].firstLogical <= 1 {
      assert Near(captures[k].geometry.segments[i].firstLogical, lba);
      assert NearBoundary(captures[k], |captures[k].geometry.segments|, lba);
      assert NearMatched(sha, captures, |captures|, content, count, lba);
    }
  }

  lemma ImageSamples(sha: seq<byte> -> Digest, blocks: map<Digest, Span>, captures: seq<Capture>, content: seq<byte>,
                     image: Image)
    requires ImageOf(sha, blocks, captures, content, image)
    ensures DescribesImage(sha, captures, content, image)
  {
    var places := AssociationsAreListed(sha, captures, |captures|, content, image.count);
    forall lba: nat
      ensures lba in image.samples <==> lba < image.count && IsSampled(sha, captures, content, image.count, lba)
    {
      SampledIff(sha, captures, content, image.count, lba);
    }
  }

  method CollectImage(store: Store, captures: seq<Capture>, content: seq<byte>) returns (image: Option<Image>)
    requires Sound(store) && MetadataOnly(captures)
    modifies store
    ensures Sound(store) && old(store.blocks).Keys <= store.blocks.Keys
    ensures image.Some? <==> Collectable(content)
    ensures image.Some? ==> ImageOf(store.sha, store.blocks, captures, content, image.value)
    ensures image.Some? ==> DescribesImage(store.sha, captures, content, image.value)
  {
    if |content| % SECTOR != 0 || |content| < 513 * SECTOR {
      return None;
    }
    var count := |content| / SECTOR;
    var samples := SampleSelected(store, content, count);
    var associations;
    associations, samples := AssociateAll(store, captures, content, count, samples);
    image := Some(Image(|content|, count, samples, associations));
    ImageSamples(store.sha, store.blocks, captures, content, image.value);
  }

  ghost predicate ImagesOf(sha: seq<byte> -> Digest, blocks: map<Digest, Span>, captures: seq<Capture>,
                           contents: seq<seq<byte>>, images: seq<Image>)
  {
    |images| == |contents| && forall k :: 0 <= k < |images| ==> ImageOf(sha, blocks, captures, contents[k], images[k])
  }

  lemma ImageStays(sha: seq<byte> -> Digest, before: map<Digest, Span>, after: map<Digest, Span>,
                   captures: seq<Capture>, content: seq<byte>, image: Image)
    requires ImageOf(sha, before, captures, content, image) && before.Keys <= after.Keys
    ensures ImageOf(sha, after, captures, content, image)
  {
  }

  lemma OneMoreImage(sha: seq<byte> -> Digest, before: map<Digest, Span>, after: map<Digest, Span>,
                     captures: seq<Capture>, contents: seq<seq<byte>>, n: nat, images: seq<Image>, image: Image)
    requires n < |contents| && ImagesOf(sha, before, captures, contents[..n], images) && before.Keys <= after.Keys
    requires ImageOf(sha, after, captures, contents[n], image)
    ensures ImagesOf(sha, after, captures, contents[..n + 1], images + [image])
  {
    forall k | 0 <= k < n ensures ImageOf(sha, after, captures, contents[k], images[k]) {
      ImageStays(sha, before, after, captures, contents[..n][k], images[k]);
    }
  }

  method CollectImages(store: Store, captures: seq<Capture>, contents: seq<seq<byte>>)
    returns (images: Option<seq<Image>>)
    requires Sound(store) && MetadataOnly(captures)
    modifies store
    ensures Sound(store) && old(store.blocks).Keys <= store.blocks.Keys
    ensures images.None? ==> exists k :: 0 <= k < |contents| && !Collectable(contents[k])
    ensures images.Some? ==> ImagesOf(store.sha, store.blocks, captures, contents, images.value)
  {
    var found: seq<Image> := [];
    for n := 0 to |contents|
      invariant Sound(store) && old(store.blocks).Keys <= store.blocks.Keys
      invariant ImagesOf(store.sha, store.blocks, captures, contents[..n], found)
    {
      ghost var before := store.blocks;
      var image := CollectImage(store, captures, contents[n]);
      if image.None? {
        return None;
      }
      OneMoreImage(store.sha, before, store.blocks, captures, contents, n, found, image.value);
      found := found + [image.value];
    }
    assert contents[..|contents|] == contents;
    images := Some(found);
  }

  /** A finished collection: the manifest, the blob, and where they come from. */
  ghost predicate Collected(sha: seq<byte> -> Digest, sources: seq<CaptureSource>, contents: seq<seq<byte>>,
                            m: Manifest, blob: seq<byte>)
  {
    && m.blobBytes == |blob| && m.blobDigest == sha(blob)
    && Addressed(sha, blob, m.blocks) && Tiled(blob, m.blocks) && NoneEmpty(m.blocks)
    && CapturesOf(sha, m.blocks, sources, m.captures)
    && ImagesOf(sha, m.blocks, m.captures, contents, m.images)
  }

  /** Exactly the readable captures and collectable images make a collection. */
  method Collect(sha: seq<byte> -> Digest, sources: seq<CaptureSource>, contents: seq<seq<byte>>)
    returns (manifest: Option<Manifest>, blob: seq<byte>)
    ensures manifest.Some? ==> Collected(sha, sources, contents, manifest.value, blob)
    ensures manifest.Some? <==> && (forall k :: 0 <= k < |sources| ==> Readable(sources[k]))
                                && forall k :: 0 <= k < |contents| ==> Collectable(contents[k])
  {
    var store := new Store(sha);
    var captures := CollectCaptures(store, sources);
    if captures.None? {
      return None, [];
    }
    CapturesAreMetadata(sha, store.blocks, sources, captures.value);
    ghost var before := store.blocks;
    var images := CollectImages(store, captures.value, contents);
    if images.None? {
      return None, [];
    }
    CapturesStay(sha, before, store.blocks, sources, captures.value);
    assert forall k :: 0 <= k < |sources| ==> CaptureOf(sha, store.blocks, sources[k], captures.value[k]);
    assert forall k :: 0 <= k < |contents| ==>
             ImageOf(sha, store.blocks, captures.value, contents[k], images.value[k]);
    blob := store.blob;
    manifest := Some(Manifest(store.blocks, |blob|, sha(blob), captures.value, images.value));
  }

  lemma CapturesAreMetadata(sha: seq<byte> -> Digest, blocks: map<Digest, Span>, sources: seq<CaptureSource>,
                            captures: seq<Capture>)
    requires CapturesOf(sha, blocks, sources, captures)
    ensures MetadataOnly(captures)
  {
    forall k | 0 <= k < |captures| ensures captures[k].samples.Keys <= METADATA {
      assert CaptureOf(sha, blocks, sources[k], captures[k]);
    }
  }

  lemma CapturesStay(sha: seq<byte> -> Digest, before: map<Digest, Span>, after: map<Digest, Span>,
                     sources: seq<CaptureSource>, captures: seq<Capture>)
    requires CapturesOf(sha, before, sources, captures) && before.Keys <= after.Keys
    ensures CapturesOf(sha, after, sources, captures)
  {
    forall k | 0 <= k < |captures| ensures CaptureOf(sha, after, sources[k], captures[k]) {
      CaptureStays(sha, before, after, sources[k], captures[k]);
    }
  }
}
