/**
 What the blob layer is for, end to end: what was written is read back as long
 as no stripe has lost more shards than the policy's parity, and a blob grown
 by appending is the blob that writing everything at once would have stored.
 */
module BlobLaws {
  import opened Bytes
  import opened Layout
  import opened Blob
  import opened BlobLayout
  import opened BlobWrite
  import opened BlobRead
  import opened BlobEdit

  /** How many of these cannot be fetched any more. */
  function Missing(fetch: Digest -> Option<Raw>, refs: seq<Ref>): nat
    decreases |refs|
  {
    if refs == [] then 0
    else Missing(fetch, refs[..|refs| - 1]) + if fetch(refs[|refs| - 1].hash).None? then 1 else 0
  }

  lemma {:induction false} MissingOrAvailable(fetch: Digest -> Option<Raw>, refs: seq<Ref>)
    ensures Missing(fetch, refs) + Available(MaskOf(fetch, refs)) == |refs|
    decreases |refs|
  {
    if refs == [] {
      assert MaskOf(fetch, refs) == [];
    } else {
      var init, mask := refs[..|refs| - 1], MaskOf(fetch, refs);
      MissingOrAvailable(fetch, init);
      assert mask == MaskOf(fetch, init) + [mask[|refs| - 1]];
      AvailableAppend(MaskOf(fetch, init), mask[|refs| - 1]);
    }
  }

  lemma StripeWidth(sha: Sha, code: Code, d: nat, p: nat, stripe: Stripe, bytes: Raw)
    requires CodeOk(code) && IsStripe(sha, code, d, p, stripe, bytes)
    ensures |stripe.shards| == d + p
  {
    var chunks :| StripeHolds(sha, code, d, p, stripe, chunks) && Concat(chunks) == bytes;
    assert Rebuilds(code, Padded(chunks, d), p);
  }

  /** Every stripe has as many shards as the policy asks for. */
  predicate Wide(m: ChunkMap, width: nat) {
    m.Ec? ==> forall i :: 0 <= i < |m.stripes| ==> |m.stripes[i].shards| == width
  }

  /** No stripe has lost more than p shards, no replicated chunk all its copies. */
  predicate Survives(fetch: Digest -> Option<Raw>, m: ChunkMap, p: nat) {
    match m
    case Replica(chunks) => Missing(fetch, chunks) == 0
    case Ec(_, _, stripes) => forall i :: 0 <= i < |stripes| ==> Missing(fetch, stripes[i].shards) <= p
  }

  lemma StoredIsWide(sha: Sha, code: Code, m: ChunkMap, content: Raw)
    requires CodeOk(code) && Stores(sha, code, m, content)
    ensures m.Ec? ==> Wide(m, m.dataShards + m.parityShards)
  {
    if m.Ec? {
      var spans :| HoldsSpans(sha, code, m.dataShards, m.parityShards, m.stripes, spans) && Concat(spans) == content;
      forall i | 0 <= i < |m.stripes| ensures |m.stripes[i].shards| == m.dataShards + m.parityShards {
        assert IsStripe(sha, code, m.dataShards, m.parityShards, m.stripes[i], spans[i]);
        StripeWidth(sha, code, m.dataShards, m.parityShards, m.stripes[i], spans[i]);
      }
    }
  }

  lemma {:induction false} NoneMissing(fetch: Digest -> Option<Raw>, refs: seq<Ref>)
    ensures Missing(fetch, refs) == 0 <==> forall i :: 0 <= i < |refs| ==> fetch(refs[i].hash).Some?
    decreases |refs|
  {
    if refs != [] {
      var init := refs[..|refs| - 1];
      NoneMissing(fetch, init);
      assert forall i :: 0 <= i < |init| ==> init[i] == refs[i];
      assert forall i :: 0 <= i < |refs| ==> (i < |init| && refs[i] == init[i]) || refs[i] == refs[|refs| - 1];
    }
  }

  /** A wide map can be read exactly when it survives. */
  lemma SurvivesIff(fetch: Digest -> Option<Raw>, m: ChunkMap, d: nat, p: nat)
    requires m.Ec? ==> m.dataShards == d && Wide(m, d + p)
    ensures CanRead(fetch, m) <==> Survives(fetch, m, p)
  {
    match m
    case Replica(chunks) => NoneMissing(fetch, chunks);
    case Ec(_, _, stripes) =>
      forall i | 0 <= i < |stripes| ensures Enough(fetch, d, stripes[i]) <==> Missing(fetch, stripes[i].shards) <= p {
        MissingOrAvailable(fetch, stripes[i].shards);
      }
  }

  /**
   Written with d data and p parity shards: every stripe is d + p shards wide,
   and the blob is read back whole if no stripe misses more than p of them,
   and not at all otherwise.
   */
  method WriteThenRead(sha: Sha, code: Code, place: Digest -> bool, size: nat, nodes: nat, ecEnabled: bool, d: nat, p: nat, stream: Raw,
                       fetch: Digest -> Option<Raw>) returns (m: Option<Manifest>, out: Out)
    requires ShaOk(sha) && CodeOk(code) && Honest(sha, fetch) && size > 0 && d > 0
    ensures m.Some? && |stream| > size && nodes >= 3 && ecEnabled ==> m.value.chunkMap.Ec? && Wide(m.value.chunkMap, d + p)
    ensures m.Some? ==> out == if Survives(fetch, m.value.chunkMap, p) then Ok(stream) else Fail
    ensures (forall h :: place(h)) ==> m.Some?
  {
    m := Write(sha, code, place, size, nodes, ecEnabled, d, p, stream);
    out := Fail;
    if m.Some? {
      StoredIsWide(sha, code, m.value.chunkMap, stream);
      SurvivesIff(fetch, m.value.chunkMap, d, p);
      out := Read(sha, code, fetch, m.value.chunkMap, stream);
    }
  }

  /**
   Appending is writing: if a blob is written and then appended to, its chunk
   map is the one that writing all bytes at once stores, whenever that chooses
   the same mode.
   */
  method AppendIsWrite(sha: Sha, code: Code, place: Digest -> bool, size: nat, nodes: nat, ecEnabled: bool, d: nat, p: nat, a: Raw, b: Raw,
                       fetch: Digest -> Option<Raw>) returns (grown: Edit, whole: Option<Manifest>)
    requires ShaOk(sha) && CodeOk(code) && Honest(sha, fetch) && size > 0 && d > 0
    ensures grown.Done? && whole.Some? && grown.manifest.chunkMap.Ec? == whole.value.chunkMap.Ec? ==> grown.manifest == whole.value
  {
    grown := Failed;
    whole := Write(sha, code, place, size, nodes, ecEnabled, d, p, a + b);
    var first := Write(sha, code, place, size, nodes, ecEnabled, d, p, a);
    if first.None? { return; }
    grown := BlobEdit.Append(sha, code, fetch, place, size, first.value, b, a, [a]);
    if grown.Done? && whole.Some? && grown.manifest.chunkMap.Ec? == whole.value.chunkMap.Ec? {
      LayoutUnique(sha, code, size, grown.manifest.chunkMap, whole.value.chunkMap, a + b);
    }
  }
}
