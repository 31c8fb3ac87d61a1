/**
 The content-addressed store of the fixture collector (scripts/build-mtk-disc-fixtures.py): one blob,
 and for each digest the span of the blob that it names. Digests are uninterpreted numbers.
 */
module BlockStore {
  import opened Images

  type Digest = nat

  datatype Span = Span(offset: nat, length: nat)

  function At(blob: seq<byte>, span: Span): seq<byte> {
    Slice(blob, span.offset, span.offset + span.length)
  }

  predicate InBlob(blob: seq<byte>, span: Span) {
    span.offset + span.length <= |blob|
  }

  predicate InSpan(span: Span, p: nat) {
    span.offset <= p < span.offset + span.length
  }

  /** Every span names bytes with its digest. */
  ghost predicate Addressed(sha: seq<byte> -> Digest, blob: seq<byte>, blocks: map<Digest, Span>) {
    forall d :: d in blocks ==> InBlob(blob, blocks[d]) && sha(At(blob, blocks[d])) == d
  }

  ghost predicate NoneEmpty(blocks: map<Digest, Span>) {
    forall d :: d in blocks ==> 0 < blocks[d].length
  }

  ghost predicate Owned(blocks: map<Digest, Span>, p: nat) {
    exists d :: d in blocks && InSpan(blocks[d], p)
  }

  /** Every byte of the blob belongs to exactly one span. */
  ghost predicate Tiled(blob: seq<byte>, blocks: map<Digest, Span>) {
    && (forall p: nat :: p < |blob| ==> Owned(blocks, p))
    && forall d, e, p: nat :: d in blocks && e in blocks && InSpan(blocks[d], p) && InSpan(blocks[e], p) ==> d == e
  }

  /** Different bytes never share a digest. */
  ghost predicate CollisionFree(sha: seq<byte> -> Digest) {
    forall x, y :: sha(x) == sha(y) ==> x == y
  }

  function SavedBlob(sha: seq<byte> -> Digest, blob: seq<byte>, blocks: map<Digest, Span>, data: seq<byte>): seq<byte> {
    if sha(data) in blocks then blob else blob + data
  }

  function SavedBlocks(sha: seq<byte> -> Digest, blob: seq<byte>, blocks: map<Digest, Span>, data: seq<byte>)
    : map<Digest, Span>
  {
    if sha(data) in blocks then blocks else blocks[sha(data) := Span(|blob|, |data|)]
  }

  lemma SaveKeepsAddresses(sha: seq<byte> -> Digest, blob: seq<byte>, blocks: map<Digest, Span>, data: seq<byte>)
    requires Addressed(sha, blob, blocks)
    ensures Addressed(sha, SavedBlob(sha, blob, blocks, data), SavedBlocks(sha, blob, blocks, data))
  {
    if sha(data) !in blocks {
      forall d | d in SavedBlocks(sha, blob, blocks, data)
        ensures var span := SavedBlocks(sha, blob, blocks, data)[d];
                InBlob(blob + data, span) && sha(At(blob + data, span)) == d
      {
        if d in blocks {
          assert At(blob + data, blocks[d]) == At(blob, blocks[d]);
        } else {
          assert At(blob + data, Span(|blob|, |data|)) == data;
        }
      }
    }
  }

  lemma SaveKeepsTiles(sha: seq<byte> -> Digest, blob: seq<byte>, blocks: map<Digest, Span>, data: seq<byte>)
    requires Addressed(sha, blob, blocks) && Tiled(blob, blocks)
    ensures Tiled(SavedBlob(sha, blob, blocks, data), SavedBlocks(sha, blob, blocks, data))
  {
    if sha(data) !in blocks {
      var saved := SavedBlocks(sha, blob, blocks, data);
      forall p: nat | p < |blob + data| ensures Owned(saved, p) {
        if p < |blob| {
          assert Owned(blocks, p);
          var d :| d in blocks && InSpan(blocks[d], p);
          assert d in saved && InSpan(saved[d], p);
        } else {
          assert sha(data) in saved && InSpan(saved[sha(data)], p);
        }
      }
      forall d, p: nat | d in blocks && InSpan(blocks[d], p) ensures p < |blob| {
        assert InBlob(blob, blocks[d]);
      }
    }
  }

  class Store {
    const sha: seq<byte> -> Digest
    var blob: seq<byte>
    var blocks: map<Digest, Span>

    ghost predicate Valid()
      reads this
    {
      Addressed(sha, blob, blocks) && Tiled(blob, blocks)
    }

    constructor (sha: seq<byte> -> Digest)
      ensures Valid() && this.sha == sha && blob == [] && blocks == map[]
    {
      this.sha := sha;
      blob := [];
      blocks := map[];
    }

    /** Bytes seen before are not stored again. */
    method Save(data: seq<byte>) returns (digest: Digest)
      requires Valid()
      modifies this
      ensures Valid()
      ensures digest == sha(data) && digest in blocks
      ensures blob == SavedBlob(sha, old(blob), old(blocks), data)
      ensures blocks == SavedBlocks(sha, old(blob), old(blocks), data)
      ensures old(blocks).Keys <= blocks.Keys
      ensures data != [] && old(NoneEmpty(blocks)) ==> NoneEmpty(blocks)
    {
      SaveKeepsAddresses(sha, blob, blocks, data);
      SaveKeepsTiles(sha, blob, blocks, data);
      digest := sha(data);
      if digest !in blocks {
        blocks := blocks[digest := Span(|blob|, |data|)];
        blob := blob + data;
      }
    }
  }

  /** Without collisions, the span stored under the digest of some bytes holds those bytes. */
  lemma StoredBytes(sha: seq<byte> -> Digest, blob: seq<byte>, blocks: map<Digest, Span>, data: seq<byte>)
    requires CollisionFree(sha) && Addressed(sha, blob, blocks) && sha(data) in blocks
    ensures At(blob, blocks[sha(data)]) == data
  {
  }

  // ---------------------------------------------------------------- reading the store back

  /** The loader's demands on one span. */
  predicate SpanLoads(sha: seq<byte> -> Digest, blob: seq<byte>, d: Digest, span: Span) {
    0 < span.length && InBlob(blob, span) && sha(At(blob, span)) == d
  }

  ghost predicate BlocksLoad(sha: seq<byte> -> Digest, blob: seq<byte>, blocks: map<Digest, Span>) {
    forall d :: d in blocks ==> SpanLoads(sha, blob, d, blocks[d])
  }

  function Loaded(blob: seq<byte>, blocks: map<Digest, Span>): map<Digest, seq<byte>> {
    map d | d in blocks :: At(blob, blocks[d])
  }

  method LoadBlocks(sha: seq<byte> -> Digest, blob: seq<byte>, blocks: map<Digest, Span>)
    returns (loaded: Option<map<Digest, seq<byte>>>)
    ensures loaded.Some? <==> BlocksLoad(sha, blob, blocks)
    ensures loaded.Some? ==> loaded.value == Loaded(blob, blocks)
  {
    var done: map<Digest, seq<byte>> := map[];
    var left := blocks.Keys;
    while left != {}
      invariant left <= blocks.Keys && done.Keys == blocks.Keys - left
      invariant forall d :: d in done ==> SpanLoads(sha, blob, d, blocks[d]) && done[d] == At(blob, blocks[d])
      decreases |left|
    {
      var d :| d in left;
      if !SpanLoads(sha, blob, d, blocks[d]) {
        return None;
      }
      done := done[d := At(blob, blocks[d])];
      left := left - {d};
    }
    assert done == Loaded(blob, blocks);
    loaded := Some(done);
  }

  /** What a store holds can always be read back, and the bytes under a digest are the ones saved. */
  lemma StoreLoads(sha: seq<byte> -> Digest, blob: seq<byte>, blocks: map<Digest, Span>)
    requires Addressed(sha, blob, blocks)
    ensures BlocksLoad(sha, blob, blocks) <==> NoneEmpty(blocks)
    ensures CollisionFree(sha) ==> forall data :: sha(data) in blocks ==> Loaded(blob, blocks)[sha(data)] == data
  {
  }
}
