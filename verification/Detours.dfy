/**
 Detours patched into one image (scripts/test-mt1959-control-field-downstream.py): each site becomes a
 Thumb BL pair (ARM DDI 0100, section A7.1.17) to its own stub slot, the rest of the site NOPs.
 */
module Detours {
  import opened Images
  import opened Runs

  const SLOTS := 0x1e_0000
  const SLOT := 0x1000

  datatype Candidate = Candidate(site: nat, original: seq<byte>, stub: seq<byte>)

  // ---------------------------------------------------------------- the branch pair

  /** The two halfwords of the branch at `site` to `dest`. */
  function First(site: int, dest: int): int {
    0xf000 + (dest - site - 4) / 2 / 0x800 % 0x800
  }

  function Second(site: int, dest: int): int {
    0xf800 + (dest - site - 4) / 2 % 0x800
  }

  /** Where the pair at `at` branches, as scripts/test-mt1939-detection.py decodes it; None when it is no pair. */
  method Decode(first: int, second: int, at: int) returns (target: Option<int>)
    requires 0 <= first < 0x1_0000 && 0 <= second < 0x1_0000
    ensures target == TargetOf(first, second, at)
  {
    if first / 0x800 != 0x1e || second / 0x800 != 0x1f {
      return None;
    }
    var offset := first % 0x800 * 0x1000 + second % 0x800 * 2;
    if offset / 0x40_0000 % 2 == 1 {
      offset := offset - 0x80_0000;
    }
    target := Some(at + 4 + offset);
  }

  /** The 23-bit offset of a pair, sign extended. */
  function TargetOf(first: int, second: int, at: int): Option<int> {
    if first / 0x800 == 0x1e && second / 0x800 == 0x1f then
      var offset := first % 0x800 * 0x1000 + second % 0x800 * 2;
      Some(at + 4 + if offset < 0x40_0000 then offset else offset - 0x80_0000)
    else None
  }

  /** A branch pair reaches even distances of 23 bits, signed. */
  predicate Reachable(site: int, dest: int) {
    (dest - site) % 2 == 0 && -0x40_0000 <= dest - site - 4 < 0x40_0000
  }

  /** The offset that is decoded: the halved distance, 22 bits of it, doubled. */
  lemma OffsetOf(delta: int)
    ensures delta / 0x800 % 0x800 * 0x1000 + delta % 0x800 * 2 == 2 * (delta % 0x40_0000)
  {
    var high, low := delta / 0x800, delta % 0x800;
    var top := high / 0x800;
    assert delta == top * 0x40_0000 + (high % 0x800 * 0x800 + low);
    Remainder(delta, top, high % 0x800 * 0x800 + low);
  }

  lemma Remainder(x: int, q: int, r: int)
    requires x == q * 0x40_0000 + r && 0 <= r < 0x40_0000
    ensures x % 0x40_0000 == r
  {
  }

  /** Decoding an encoded pair gives the destination back exactly when the branch can reach it. */
  lemma DecodeOfEncodeIff(site: int, dest: int)
    ensures TargetOf(First(site, dest), Second(site, dest), site) == Some(dest) <==> Reachable(site, dest)
  {
    var delta := (dest - site - 4) / 2;
    OffsetOf(delta);
    var first, second := First(site, dest), Second(site, dest);
    assert first / 0x800 == 0x1e && first % 0x800 == delta / 0x800 % 0x800;
    assert second / 0x800 == 0x1f && second % 0x800 == delta % 0x800;
    var bits := delta % 0x40_0000;
    if -0x20_0000 <= delta < 0 {
      Remainder(delta, -1, delta + 0x40_0000);
    } else if 0 <= delta < 0x20_0000 {
      Remainder(delta, 0, delta);
    }
  }

  /** The pair at an address of an image. */
  function TargetAt(image: seq<byte>, at: nat): Option<int>
    requires at + 4 <= |image|
  {
    TargetOf(Half(image, at), Half(image, at + 2), at)
  }

  // ---------------------------------------------------------------- candidates

  function Dest(index: nat): nat {
    SLOTS + index * SLOT
  }

  function Branch(site: int, dest: int): (bytes: seq<byte>)
    ensures |bytes| == 4
  {
    HalfBytes(First(site, dest)) + HalfBytes(Second(site, dest))
  }

  /** `c0 46` repeated; a negative count repeats nothing. */
  function Nops(count: int): (bytes: seq<byte>)
    ensures |bytes| == 2 * Max(count, 0)
    ensures forall i :: 0 <= i < |bytes| ==> bytes[i] == if i % 2 == 0 then 0xc0 else 0x46
  {
    seq(2 * Max(count, 0), i requires 0 <= i => if i % 2 == 0 then 0xc0 else 0x46)
  }

  /** One candidate resolved: what is written where. */
  datatype Edit = Edit(site: nat, original: seq<byte>, pair: seq<byte>, rest: seq<byte>, dest: nat, stub: seq<byte>)

  function EditOf(c: Candidate, index: nat): Edit {
    Edit(c.site, c.original, Branch(c.site, Dest(index)), Nops((|c.original| - 4) / 2), Dest(index), c.stub)
  }

  function Edits(cs: seq<Candidate>): seq<Edit> {
    seq(|cs|, i requires 0 <= i < |cs| => EditOf(cs[i], i))
  }

  /** The two assertions made for a candidate. */
  predicate Admits(image: seq<byte>, e: Edit) {
    Slice(image, e.site, e.site + |e.original|) == e.original && |e.stub| <= SLOT
  }

  /** The image after one candidate. */
  function Applied(image: seq<byte>, e: Edit): seq<byte> {
    var stubbed := Assign(image, e.dest, e.dest + |e.stub|, e.stub);
    var branched := Assign(stubbed, e.site, e.site + 4, e.pair);
    Assign(branched, e.site + 4, e.site + |e.original|, e.rest)
  }

  /** One candidate: None when an assertion fails. */
  function Patcher(): (seq<byte>, Edit) -> Option<seq<byte>> {
    (image, e) => if Admits(image, e) then Some(Applied(image, e)) else None
  }

  function Installed(data: seq<byte>, es: seq<Edit>, n: nat): Option<seq<byte>>
    requires n <= |es|
  {
    Fold(Patcher(), data, es, n)
  }

  // ---------------------------------------------------------------- what one edit writes

  predicate AtSite(e: Edit, p: int) {
    e.site <= p < e.site + |e.original|
  }

  /** Inside the stub, or inside its slot when the stub is longer and so will be refused. */
  predicate InSlot(e: Edit, p: int) {
    e.dest <= p < e.dest + Min(|e.stub|, SLOT)
  }

  /** The positions an edit writes. */
  predicate Owns(e: Edit, p: int) {
    AtSite(e, p) || e.dest <= p < e.dest + |e.stub|
  }

  /** The byte it writes there. */
  function Patch(e: Edit, p: int): byte
    requires Owns(e, p) && |e.pair| == 4 && |e.original| == 4 + |e.rest|
  {
    if !AtSite(e, p) then e.stub[p - e.dest]
    else if p < e.site + 4 then e.pair[p - e.site]
    else e.rest[p - e.site - 4]
  }

  /** A pair and whole NOPs fill the site; site and stub lie in the image, apart. */
  ghost predicate Proper(size: nat, e: Edit) {
    && |e.pair| == 4 && |e.original| == 4 + |e.rest|
    && e.site + |e.original| <= size && e.dest + Min(|e.stub|, SLOT) <= size
    && forall p :: !(AtSite(e, p) && InSlot(e, p))
  }

  /** No site or stub over another's. */
  ghost predicate Foreign(e: Edit, f: Edit) {
    forall p :: AtSite(e, p) || InSlot(e, p) ==> !AtSite(f, p) && !InSlot(f, p)
  }

  ghost predicate Laid(size: nat, es: seq<Edit>) {
    && (forall k :: 0 <= k < |es| ==> Proper(size, es[k]))
    && forall j, k :: 0 <= j < |es| && 0 <= k < |es| && j != k ==> Foreign(es[j], es[k])
  }

  /** `after` is `image` with the edit's own positions written and nothing else. */
  ghost predicate Changed(image: seq<byte>, e: Edit, after: seq<byte>)
    requires Proper(|image|, e)
  {
    && |after| == |image|
    && forall p :: 0 <= p < |image| ==> after[p] == if Owns(e, p) then Patch(e, p) else image[p]
  }

  function Stubbed(image: seq<byte>, e: Edit): seq<byte> {
    Assign(image, e.dest, e.dest + |e.stub|, e.stub)
  }

  function Branched(image: seq<byte>, e: Edit): seq<byte> {
    Assign(image, e.site, e.site + 4, e.pair)
  }

  lemma StubbedAt(image: seq<byte>, e: Edit, p: nat)
    requires Proper(|image|, e) && |e.stub| <= SLOT && p < |image|
    ensures |Stubbed(image, e)| == |image|
    ensures Stubbed(image, e)[p] == if e.dest <= p < e.dest + |e.stub| then e.stub[p - e.dest] else image[p]
  {
  }

  lemma SiteAt(image: seq<byte>, e: Edit, p: nat)
    requires Proper(|image|, e) && p < |image|
    ensures |Branched(image, e)| == |image|
    ensures var after := Assign(Branched(image, e), e.site + 4, e.site + |e.original|, e.rest);
            |after| == |image| && after[p] == if AtSite(e, p) then Patch(e, p) else image[p]
  {
  }

  lemma AppliedAt(image: seq<byte>, e: Edit, p: nat)
    requires Proper(|image|, e) && |e.stub| <= SLOT && p < |image|
    ensures |Applied(image, e)| == |image|
    ensures Applied(image, e)[p] == if Owns(e, p) then Patch(e, p) else image[p]
  {
    StubbedAt(image, e, p);
    SiteAt(Stubbed(image, e), e, p);
  }

  lemma AppliedChanges(image: seq<byte>, e: Edit)
    requires Proper(|image|, e) && |e.stub| <= SLOT
    ensures Changed(image, e, Applied(image, e))
  {
    AppliedAt(image, e, 0);
    forall p | 0 <= p < |image| ensures Applied(image, e)[p] == if Owns(e, p) then Patch(e, p) else image[p] {
      AppliedAt(image, e, p);
    }
  }

  // ---------------------------------------------------------------- installing

  /** One candidate: two assertions, then the stub, the pair and the NOPs. */
  method Apply(image: seq<byte>, e: Edit) returns (patched: Option<seq<byte>>)
    ensures patched == Patcher()(image, e)
    ensures patched.Some? && Proper(|image|, e) ==> Changed(image, e, patched.value)
  {
    if Slice(image, e.site, e.site + |e.original|) != e.original || |e.stub| > SLOT {
      return None;
    }
    var current := Assign(image, e.dest, e.dest + |e.stub|, e.stub);
    current := Assign(current, e.site, e.site + 4, e.pair);
    current := Assign(current, e.site + 4, e.site + |e.original|, e.rest);
    if Proper(|image|, e) {
      AppliedChanges(image, e);
    }
    patched := Some(current);
  }

  method ApplyAll(data: seq<byte>, es: seq<Edit>) returns (image: Option<seq<byte>>)
    ensures image == Installed(data, es, |es|)
  {
    image := Some(data);
    for n := 0 to |es|
      invariant image.Some? && image == Fold(Patcher(), data, es, n)
    {
      image := Apply(image.value, es[n]);
      if image.None? {
        RefusedStays(Patcher(), data, es, n + 1, |es|);
        return;
      }
    }
  }

  /** None when a candidate's original bytes are not there any more or its stub exceeds a slot. */
  method Install(data: seq<byte>, cs: seq<Candidate>) returns (image: Option<seq<byte>>)
    ensures image == Installed(data, Edits(cs), |cs|)
  {
    image := ApplyAll(data, Edits(cs));
  }

  ghost predicate Untouched(es: seq<Edit>, n: nat, p: int)
    requires n <= |es|
  {
    forall k :: 0 <= k < n ==> !Owns(es[k], p)
  }

  /** What the image holds after the first `n` edits: their bytes at their positions, the original elsewhere. */
  ghost predicate Patched(data: seq<byte>, es: seq<Edit>, n: nat, image: seq<byte>)
    requires n <= |es| && Laid(|data|, es)
  {
    && |image| == |data|
    && (forall k :: 0 <= k < n ==> |es[k].stub| <= SLOT)
    && (forall p :: 0 <= p < |image| && Untouched(es, n, p) ==> image[p] == data[p])
    && forall k, p :: 0 <= k < n && 0 <= p < |image| && Owns(es[k], p) ==> image[p] == Patch(es[k], p)
  }

  /** The next site is untouched so far, so its assertion sees the original bytes. */
  lemma SiteStillOriginal(data: seq<byte>, es: seq<Edit>, n: nat, image: seq<byte>)
    requires n < |es| && Laid(|data|, es) && Patched(data, es, n, image)
    ensures Admits(image, es[n]) <==> Admits(data, es[n])
  {
    var e := es[n];
    forall p | AtSite(e, p) ensures image[p] == data[p] {
      forall k | 0 <= k < n ensures !Owns(es[k], p) {
        assert Foreign(es[k], e);
      }
      assert Untouched(es, n, p);
    }
    var end := e.site + |e.original|;
    assert Slice(image, e.site, end) == Slice(data, e.site, end);
  }

  lemma PatchedOneMore(data: seq<byte>, es: seq<Edit>, n: nat, image: seq<byte>, after: seq<byte>)
    requires n < |es| && Laid(|data|, es) && Patched(data, es, n, image) && |es[n].stub| <= SLOT
    requires Proper(|image|, es[n]) && Changed(image, es[n], after)
    ensures Patched(data, es, n + 1, after)
  {
    forall p | 0 <= p < |after| && Untouched(es, n + 1, p) ensures after[p] == data[p] {
      assert Untouched(es, n, p) && !Owns(es[n], p);
    }
    forall k, p | 0 <= k < n + 1 && 0 <= p < |after| && Owns(es[k], p) ensures after[p] == Patch(es[k], p) {
      if k < n {
        assert Foreign(es[k], es[n]);
      }
    }
  }

  /** In a patched image the next candidate is accepted exactly when it matches the original, and patched in. */
  lemma NextIff(data: seq<byte>, es: seq<Edit>, n: nat, image: seq<byte>)
    requires n < |es| && Laid(|data|, es) && Patched(data, es, n, image)
    ensures Patcher()(image, es[n]).Some? <==> Admits(data, es[n])
    ensures Patcher()(image, es[n]).Some? ==> Patched(data, es, n + 1, Patcher()(image, es[n]).value)
  {
    SiteStillOriginal(data, es, n, image);
    if Admits(image, es[n]) {
      AppliedChanges(image, es[n]);
      PatchedOneMore(data, es, n, image, Applied(image, es[n]));
    }
  }

  /** Installing succeeds exactly when every candidate matches the unpatched image, and then patches it. */
  lemma InstalledIff(data: seq<byte>, es: seq<Edit>)
    requires Laid(|data|, es)
    ensures Installed(data, es, |es|).Some? <==> forall k :: 0 <= k < |es| ==> Admits(data, es[k])
    ensures Installed(data, es, |es|).Some? ==> Patched(data, es, |es|, Installed(data, es, |es|).value)
  {
    var holds := (n: nat, image: seq<byte>) => n <= |es| && Patched(data, es, n, image);
    var fit := (e: Edit) => Admits(data, e);
    forall k: nat, image | k < |es| && holds(k, image)
      ensures Patcher()(image, es[k]).Some? <==> fit(es[k])
      ensures Patcher()(image, es[k]).Some? ==> holds(k + 1, Patcher()(image, es[k]).value)
    {
      NextIff(data, es, k, image);
    }
    FoldKeeps(Patcher(), data, es, |es|, holds, fit);
  }

  // ---------------------------------------------------------------- what the detours mean

  /** No point is in both ranges. */
  predicate Apart(lo: int, hi: int, low: int, high: int) {
    hi <= low || high <= lo || hi <= lo || high <= low
  }

  function SiteEnd(c: Candidate): nat {
    c.site + |c.original|
  }

  /** Where the stub of the candidate at an index ends, a stub that is too long at the end of its slot. */
  function StubEnd(c: Candidate, index: nat): nat {
    Dest(index) + Min(|c.stub|, SLOT)
  }

  /**
   Room at every site for a pair and whole NOPs; all sites and stubs inside the image; no site over
   another site or a stub.
   */
  ghost predicate Disjoint(size: nat, cs: seq<Candidate>) {
    && (forall k :: 0 <= k < |cs| ==>
          && 4 <= |cs[k].original| && |cs[k].original| % 2 == 0
          && SiteEnd(cs[k]) <= size && StubEnd(cs[k], k) <= size)
    && (forall j, k :: 0 <= j < |cs| && 0 <= k < |cs| && j != k ==>
          Apart(cs[j].site, SiteEnd(cs[j]), cs[k].site, SiteEnd(cs[k])))
    && forall j, k :: 0 <= j < |cs| && 0 <= k < |cs| ==>
         Apart(cs[j].site, SiteEnd(cs[j]), Dest(k), StubEnd(cs[k], k))
  }

  lemma DisjointIsLaid(size: nat, cs: seq<Candidate>)
    requires Disjoint(size, cs)
    ensures Laid(size, Edits(cs))
  {
    var es := Edits(cs);
    forall k | 0 <= k < |es| ensures Proper(size, es[k]) {
      assert Apart(cs[k].site, SiteEnd(cs[k]), Dest(k), StubEnd(cs[k], k));
    }
    forall j, k | 0 <= j < |es| && 0 <= k < |es| && j != k ensures Foreign(es[j], es[k]) {
      assert Apart(cs[j].site, SiteEnd(cs[j]), cs[k].site, SiteEnd(cs[k]));
      assert Apart(cs[j].site, SiteEnd(cs[j]), Dest(k), StubEnd(cs[k], k));
      assert Apart(cs[k].site, SiteEnd(cs[k]), Dest(j), StubEnd(cs[j], j));
    }
  }

  lemma AdmitsIff(data: seq<byte>, c: Candidate, k: nat)
    requires SiteEnd(c) <= |data|
    ensures Admits(data, EditOf(c, k)) <==> data[c.site..SiteEnd(c)] == c.original && |c.stub| <= SLOT
  {
    assert Slice(data, c.site, SiteEnd(c)) == data[c.site..SiteEnd(c)];
  }

  /** Installing succeeds exactly when every site holds its original bytes and every stub fits a slot. */
  lemma InstallSucceedsIff(data: seq<byte>, cs: seq<Candidate>)
    requires Disjoint(|data|, cs)
    ensures Installed(data, Edits(cs), |cs|).Some? <==>
            forall k :: 0 <= k < |cs| ==>
              data[cs[k].site..SiteEnd(cs[k])] == cs[k].original && |cs[k].stub| <= SLOT
  {
    DisjointIsLaid(|data|, cs);
    InstalledIff(data, Edits(cs));
    forall k | 0 <= k < |cs|
      ensures Admits(data, Edits(cs)[k]) <==>
              data[cs[k].site..SiteEnd(cs[k])] == cs[k].original && |cs[k].stub| <= SLOT
    {
      AdmitsIff(data, cs[k], k);
    }
  }

  /** The image that a successful run on disjoint candidates returns. */
  ghost predicate Returns(data: seq<byte>, cs: seq<Candidate>, image: seq<byte>) {
    Disjoint(|data|, cs) && Installed(data, Edits(cs), |cs|) == Some(image)
  }

  lemma ReturnedIsPatched(data: seq<byte>, cs: seq<Candidate>, image: seq<byte>)
    requires Returns(data, cs, image)
    ensures Laid(|data|, Edits(cs)) && Patched(data, Edits(cs), |cs|, image)
  {
    DisjointIsLaid(|data|, cs);
    InstalledIff(data, Edits(cs));
  }

  /** An installed image keeps its length and every byte outside the sites and the stubs. */
  lemma InstallKeepsTheRest(data: seq<byte>, cs: seq<Candidate>, image: seq<byte>, p: nat)
    requires Returns(data, cs, image) && p < |data|
    requires forall k :: 0 <= k < |cs| ==> !(cs[k].site <= p < SiteEnd(cs[k]))
    requires forall k :: 0 <= k < |cs| ==> !(Dest(k) <= p < Dest(k) + |cs[k].stub|)
    ensures |image| == |data| && image[p] == data[p]
  {
    ReturnedIsPatched(data, cs, image);
    assert Untouched(Edits(cs), |cs|, p);
  }

  lemma StubBytes(data: seq<byte>, es: seq<Edit>, image: seq<byte>, k: nat)
    requires Laid(|data|, es) && Patched(data, es, |es|, image) && k < |es|
    ensures Slice(image, es[k].dest, es[k].dest + |es[k].stub|) == es[k].stub
  {
    assert Proper(|data|, es[k]);
    forall p | es[k].dest <= p < es[k].dest + |es[k].stub| ensures image[p] == es[k].stub[p - es[k].dest] {
      assert !(AtSite(es[k], p) && InSlot(es[k], p));
      assert Owns(es[k], p);
    }
  }

  lemma SiteBytes(data: seq<byte>, es: seq<Edit>, image: seq<byte>, k: nat)
    requires Laid(|data|, es) && Patched(data, es, |es|, image) && k < |es|
    ensures es[k].site + 4 <= es[k].site + |es[k].original| <= |image| == |data|
    ensures Slice(image, es[k].site, es[k].site + 4) == es[k].pair
    ensures Slice(image, es[k].site + 4, es[k].site + |es[k].original|) == es[k].rest
  {
    assert Proper(|data|, es[k]);
    forall p | es[k].site <= p < es[k].site + |es[k].original| ensures image[p] == Patch(es[k], p) {
      assert AtSite(es[k], p) && Owns(es[k], p);
    }
  }

  /** Each stub lies whole in its slot. */
  lemma InstallPlacesStub(data: seq<byte>, cs: seq<Candidate>, image: seq<byte>, k: nat)
    requires Returns(data, cs, image) && k < |cs|
    ensures Slice(image, Dest(k), Dest(k) + |cs[k].stub|) == cs[k].stub
  {
    ReturnedIsPatched(data, cs, image);
    var es := Edits(cs);
    StubBytes(data, es, image, k);
    assert es[k].dest == Dest(k) && es[k].stub == cs[k].stub;
  }

  /** Each site starts with its branch pair. */
  lemma InstallPlacesPair(data: seq<byte>, cs: seq<Candidate>, image: seq<byte>, k: nat)
    requires Returns(data, cs, image) && k < |cs|
    ensures cs[k].site + 4 <= |image| == |data|
    ensures Slice(image, cs[k].site, cs[k].site + 4) == Branch(cs[k].site, Dest(k))
  {
    ReturnedIsPatched(data, cs, image);
    SiteBytes(data, Edits(cs), image, k);
  }

  /** The rest of each site is NOPs. */
  lemma InstallPlacesNops(data: seq<byte>, cs: seq<Candidate>, image: seq<byte>, k: nat)
    requires Returns(data, cs, image) && k < |cs|
    ensures Slice(image, cs[k].site + 4, SiteEnd(cs[k])) == Nops((|cs[k].original| - 4) / 2)
  {
    ReturnedIsPatched(data, cs, image);
    SiteBytes(data, Edits(cs), image, k);
  }

  lemma PairIsRead(image: seq<byte>, site: nat, dest: int)
    requires site + 4 <= |image| && Slice(image, site, site + 4) == Branch(site, dest)
    ensures Half(image, site) == First(site, dest) && Half(image, site + 2) == Second(site, dest)
  {
    var pair := Slice(image, site, site + 4);
    assert pair[0] == image[site] && pair[1] == image[site + 1] && pair[2] == image[site + 2] &&
           pair[3] == image[site + 3];
    BytesAreRead(image, site, First(site, dest));
    BytesAreRead(image, site + 2, Second(site, dest));
  }

  lemma BytesAreRead(image: seq<byte>, at: nat, halfword: int)
    requires 0 <= halfword < 0x1_0000 && at + 2 <= |image|
    requires image[at] == HalfBytes(halfword)[0] && image[at + 1] == HalfBytes(halfword)[1]
    ensures Half(image, at) == halfword
  {
  }

  lemma PairDecodesIff(image: seq<byte>, site: nat, dest: int)
    requires site + 4 <= |image| && Slice(image, site, site + 4) == Branch(site, dest)
    ensures TargetAt(image, site) == Some(dest) <==> Reachable(site, dest)
  {
    PairIsRead(image, site, dest);
    DecodeOfEncodeIff(site, dest);
  }

  /** Each detour decodes to its own stub exactly when the branch can reach it. */
  lemma DetourDecodesIff(data: seq<byte>, cs: seq<Candidate>, image: seq<byte>, k: nat)
    requires Returns(data, cs, image) && k < |cs|
    ensures cs[k].site + 4 <= |image|
    ensures TargetAt(image, cs[k].site) == Some(Dest(k)) <==> Reachable(cs[k].site, Dest(k))
  {
    InstallPlacesPair(data, cs, image, k);
    PairDecodesIff(image, cs[k].site, Dest(k));
  }

  lemma EvenSlotsAreReachable(site: nat, k: nat)
    requires site % 2 == 0 && site + 4 <= 0x40_0000 && Dest(k) <= 0x40_0000
    ensures Reachable(site, Dest(k))
  {
  }

  /** In an image of at most four megabytes every detour from an even site decodes to its own stub. */
  lemma EvenSitesReachTheirStubs(data: seq<byte>, cs: seq<Candidate>, image: seq<byte>, k: nat)
    requires Returns(data, cs, image) && k < |cs| && |data| <= 0x40_0000 && cs[k].site % 2 == 0
    ensures cs[k].site + 4 <= |image| && TargetAt(image, cs[k].site) == Some(Dest(k))
  {
    DetourDecodesIff(data, cs, image, k);
    InstallPlacesPair(data, cs, image, k);
    EvenSlotsAreReachable(cs[k].site, k);
  }

  // ---------------------------------------------------------------- sites that are not pair and whole NOPs

  /**
   Inside the image, a candidate keeps the image's length exactly when its site is not longer
   than a pair or of even length.
   */
  lemma LengthKeptIff(image: seq<byte>, c: Candidate, index: nat)
    requires c.site + Max(4, |c.original|) <= |image| && Dest(index) + |c.stub| <= |image|
    ensures |Applied(image, EditOf(c, index))| == |image| <==> |c.original| <= 4 || |c.original| % 2 == 0
    ensures |Applied(image, EditOf(c, index))| <= |image| <= |Applied(image, EditOf(c, index))| + 1
  {
    var e := EditOf(c, index);
    assert |Stubbed(image, e)| == |image|;
    assert |Branched(Stubbed(image, e), e)| == |image|;
  }

  /** A site shorter than a pair is overrun: the bytes behind it become the end of the pair. */
  lemma ShortSiteIsOverrun(image: seq<byte>, c: Candidate, index: nat, p: nat)
    requires |c.original| < 4 && c.site + |c.original| <= p < c.site + 4 <= |image|
    requires Dest(index) + |c.stub| <= |image|
    ensures var after := Applied(image, EditOf(c, index));
            |after| == |image| && after[p] == Branch(c.site, Dest(index))[p - c.site]
  {
    var e := EditOf(c, index);
    var stubbed := Stubbed(image, e);
    var branched := Branched(stubbed, e);
    assert |stubbed| == |image|;
    assert branched[p] == e.pair[p - c.site];
    assert Applied(image, e) == branched;
  }
}
