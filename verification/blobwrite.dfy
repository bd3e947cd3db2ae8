/**
 Writing blobs: a stream cut into chunks, stored as replicas or as erasure-coded
 stripes, appended to, and spliced. The manifest always describes the content.
 */
module BlobWrite {
  import opened Bytes
  import opened Layout
  import opened Blob
  import opened BlobLayout

  // --- chunking -----------------------------------------------------------------------------

  /** Any run of consecutive chunks packs into a stripe. */
  lemma ChunksPack(size: nat, chunks: seq<Raw>, lo: nat, hi: nat)
    requires IsChunking(size, chunks) && lo < hi <= |chunks|
    ensures Packed(chunks[lo..hi]) && IsChunking(size, chunks[lo..hi])
  {
    MaxLenOf(size, chunks[lo..hi]);
  }

  lemma {:induction false} MaxLenOf(size: nat, chunks: seq<Raw>)
    requires chunks != [] && IsChunking(size, chunks)
    ensures MaxLen(chunks) == if |chunks| == 1 then |chunks[0]| else size
    decreases |chunks|
  {
    if |chunks| > 1 { MaxLenOf(size, chunks[1..]); }
  }

  /** The stream through a fixed-size buffer, one full read at a time. */
  method ChunkUp(size: nat, stream: Raw) returns (chunks: seq<Raw>)
    requires size > 0
    ensures IsChunking(size, chunks) && Concat(chunks) == stream
  {
    chunks := [];
    var pos := 0;
    assert stream[..0] == [];
    while pos < |stream|
      invariant pos <= |stream| && Concat(chunks) == stream[..pos] && IsChunking(size, chunks)
      invariant pos < |stream| ==> forall i :: 0 <= i < |chunks| ==> |chunks[i]| == size
    {
      var n := if |stream| - pos < size then |stream| - pos else size;
      var chunk := stream[pos..pos + n];
      ConcatAppend(chunks, [chunk]);
      ConcatOne(chunk);
      assert stream[..pos] + chunk == stream[..pos + n];
      chunks, pos := chunks + [chunk], pos + n;
    }
    assert stream[..pos] == stream;
  }

  lemma ManyChunks(size: nat, chunks: seq<Raw>)
    requires IsChunking(size, chunks)
    ensures |chunks| > 1 <==> |Concat(chunks)| > size
  {
    if |chunks| == 1 { ConcatOne(chunks[0]); }
    if |chunks| > 1 { assert |chunks[1..][0]| > 0; }
  }

  // --- storing ---------------------------------------------------------------------------------

  method StoreChunk(sha: Sha, place: Digest -> bool, chunk: Raw) returns (r: Option<Ref>)
    ensures r.Some? ==> r.value == Ref(Hash(sha, chunk), |chunk|)
    ensures r.Some? <==> place(Hash(sha, chunk))
  {
    var hash := Hash(sha, chunk);
    r := if place(hash) then Some(Ref(hash, |chunk|)) else None;
  }

  /** Pads, codes and places a shard set; every shard must land somewhere. */
  method StoreStripe(sha: Sha, code: Code, place: Digest -> bool, chunks: seq<Raw>, d: nat, p: nat) returns (r: Option<Stripe>)
    requires |chunks| <= d
    ensures r.Some? ==> r.value == StripeOf(sha, code, d, p, chunks)
    ensures (forall h :: place(h)) ==> r.Some?
  {
    var dataLen := 0;
    assert chunks[..0] == [];
    for i := 0 to |chunks|
      invariant dataLen == |Concat(chunks[..i])|
    {
      assert chunks[..i + 1] == chunks[..i] + [chunks[i]];
      ConcatAppend(chunks[..i], [chunks[i]]);
      ConcatOne(chunks[i]);
      dataLen := dataLen + |chunks[i]|;
    }
    assert chunks[..|chunks|] == chunks;
    var shards := Codeword(code, chunks, d, p);
    var refs := [];
    for k := 0 to |shards|
      invariant refs == RefsOf(sha, shards[..k])
    {
      var hash := Hash(sha, shards[k]);
      if !place(hash) { return None; }
      refs := refs + [Ref(hash, |shards[k]|)];
    }
    assert shards[..|shards|] == shards;
    r := Some(Stripe(refs, dataLen));
  }

  // --- chunk maps ---------------------------------------------------------------------------------

  lemma RefsOfAppend(sha: Sha, a: seq<Raw>, b: seq<Raw>)
    ensures RefsOf(sha, a + b) == RefsOf(sha, a) + RefsOf(sha, b)
  {
  }

  lemma ChunksJoin(sha: Sha, a: seq<Ref>, x: Raw, b: seq<Ref>, y: Raw)
    requires HoldsChunks(sha, a, x) && HoldsChunks(sha, b, y)
    ensures HoldsChunks(sha, a + b, x + y)
  {
    var p :| a == RefsOf(sha, p) && Concat(p) == x;
    var q :| b == RefsOf(sha, q) && Concat(q) == y;
    ConcatAppend(p, q);
    RefsOfAppend(sha, p, q);
    assert a + b == RefsOf(sha, p + q) && Concat(p + q) == x + y;
  }

  lemma StripesJoin(sha: Sha, code: Code, d: nat, p: nat, a: seq<Stripe>, x: Raw, b: seq<Stripe>, y: Raw)
    requires HoldsStripes(sha, code, d, p, a, x) && HoldsStripes(sha, code, d, p, b, y)
    ensures HoldsStripes(sha, code, d, p, a + b, x + y)
  {
    var s :| HoldsSpans(sha, code, d, p, a, s) && Concat(s) == x;
    var t :| HoldsSpans(sha, code, d, p, b, t) && Concat(t) == y;
    ConcatAppend(s, t);
    forall i | 0 <= i < |a + b| ensures IsStripe(sha, code, d, p, (a + b)[i], (s + t)[i]) {
      if i < |a| {
        assert IsStripe(sha, code, d, p, a[i], s[i]);
      } else {
        assert IsStripe(sha, code, d, p, b[i - |a|], t[i - |a|]);
      }
    }
    assert HoldsSpans(sha, code, d, p, a + b, s + t);
  }

  lemma OneChunk(sha: Sha, chunk: Raw)
    ensures HoldsChunks(sha, [Ref(Hash(sha, chunk), |chunk|)], chunk)
  {
    ConcatOne(chunk);
    assert RefsOf(sha, [chunk]) == [Ref(Hash(sha, chunk), |chunk|)];
  }

  lemma OneStripe(sha: Sha, code: Code, d: nat, p: nat, chunks: seq<Raw>)
    requires 0 < |chunks| <= d && Packed(chunks)
    ensures HoldsStripes(sha, code, d, p, [StripeOf(sha, code, d, p, chunks)], Concat(chunks))
  {
    var stripe, bytes := StripeOf(sha, code, d, p, chunks), Concat(chunks);
    ConcatOne(bytes);
    assert StripeHolds(sha, code, d, p, stripe, chunks);
    assert HoldsSpans(sha, code, d, p, [stripe], [bytes]);
  }

  lemma NothingStored(sha: Sha, code: Code, d: nat, p: nat)
    ensures HoldsChunks(sha, [], []) && HoldsStripes(sha, code, d, p, [], [])
  {
    assert RefsOf(sha, []) == [];
    assert HoldsSpans(sha, code, d, p, [], []) && Concat([]) == [];
  }

  lemma ConcatSlice(before: Raw, chunks: seq<Raw>, i: nat, end: nat)
    requires i <= end <= |chunks|
    ensures before + Concat(chunks[..i]) + Concat(chunks[i..end]) == before + Concat(chunks[..end])
  {
    assert chunks[..end] == chunks[..i] + chunks[i..end];
    ConcatAppend(chunks[..i], chunks[i..end]);
  }

  lemma ChunkStep(sha: Sha, refs: seq<Ref>, before: Raw, chunks: seq<Raw>, i: nat)
    requires i < |chunks| && HoldsChunks(sha, refs, before + Concat(chunks[..i]))
    ensures HoldsChunks(sha, refs + [Ref(Hash(sha, chunks[i]), |chunks[i]|)], before + Concat(chunks[..i + 1]))
  {
    OneChunk(sha, chunks[i]);
    ChunksJoin(sha, refs, before + Concat(chunks[..i]), [Ref(Hash(sha, chunks[i]), |chunks[i]|)], chunks[i]);
    ConcatSlice(before, chunks, i, i + 1);
    assert chunks[i..i + 1] == [chunks[i]];
    ConcatOne(chunks[i]);
  }

  lemma StripeStep(sha: Sha, code: Code, d: nat, p: nat, stripes: seq<Stripe>, before: Raw, chunks: seq<Raw>, i: nat, end: nat)
    requires i < end <= |chunks| && end - i <= d && Packed(chunks[i..end])
    requires HoldsStripes(sha, code, d, p, stripes, before + Concat(chunks[..i]))
    ensures HoldsStripes(sha, code, d, p, stripes + [StripeOf(sha, code, d, p, chunks[i..end])], before + Concat(chunks[..end]))
  {
    var span := chunks[i..end];
    OneStripe(sha, code, d, p, span);
    StripesJoin(sha, code, d, p, stripes, before + Concat(chunks[..i]), [StripeOf(sha, code, d, p, span)], Concat(span));
    ConcatSlice(before, chunks, i, end);
  }

  lemma StripesStep(sha: Sha, code: Code, d: nat, p: nat, chunks: seq<Raw>, i: nat, end: nat)
    requires d > 0 && i < end <= |chunks| && end - i <= d && Whole(d, chunks[..i])
    ensures StripesOf(sha, code, d, p, chunks[..end]) == StripesOf(sha, code, d, p, chunks[..i]) + [StripeOf(sha, code, d, p, chunks[i..end])]
    ensures end - i == d ==> Whole(d, chunks[..end])
  {
    assert chunks[..end] == chunks[..i] + chunks[i..end];
    OneStripeOf(sha, code, d, p, chunks[i..end]);
    StripesAppend(sha, code, d, p, chunks[..i], chunks[i..end]);
    if end - i == d {
      FullGroup(d, chunks[i..end]);
      WholeAppend(d, chunks[..i], chunks[i..end]);
    }
  }

  /** Chunks as replicas, one reference each. */
  method AddChunks(sha: Sha, place: Digest -> bool, was: seq<Ref>, chunks: seq<Raw>, ghost before: Raw) returns (r: Option<seq<Ref>>)
    requires HoldsChunks(sha, was, before)
    ensures r.Some? ==> HoldsChunks(sha, r.value, before + Concat(chunks)) && r.value == was + RefsOf(sha, chunks)
    ensures (forall h :: place(h)) ==> r.Some?
  {
    var refs := was;
    assert before + Concat(chunks[..0]) == before;
    for i := 0 to |chunks|
      invariant HoldsChunks(sha, refs, before + Concat(chunks[..i])) && refs == was + RefsOf(sha, chunks[..i])
    {
      var ref := StoreChunk(sha, place, chunks[i]);
      if ref.None? { return None; }
      ChunkStep(sha, refs, before, chunks, i);
      refs := refs + [ref.value];
    }
    assert chunks[..|chunks|] == chunks;
    r := Some(refs);
  }

  /** Chunks as stripes of up to d; the last stripe may cover fewer. */
  method AddStripes(sha: Sha, code: Code, place: Digest -> bool, d: nat, p: nat, was: seq<Stripe>, size: nat, chunks: seq<Raw>, ghost before: Raw)
    returns (r: Option<seq<Stripe>>)
    requires d > 0 && IsChunking(size, chunks) && HoldsStripes(sha, code, d, p, was, before)
    ensures r.Some? ==> HoldsStripes(sha, code, d, p, r.value, before + Concat(chunks)) && r.value == was + StripesOf(sha, code, d, p, chunks)
    ensures (forall h :: place(h)) ==> r.Some?
  {
    var stripes, i := was, 0;
    assert before + Concat(chunks[..0]) == before;
    while i < |chunks|
      invariant i <= |chunks| && HoldsStripes(sha, code, d, p, stripes, before + Concat(chunks[..i]))
      invariant stripes == was + StripesOf(sha, code, d, p, chunks[..i]) && (i < |chunks| ==> Whole(d, chunks[..i]))
    {
      var end := if i + d > |chunks| then |chunks| else i + d;
      var stripe := StoreStripe(sha, code, place, chunks[i..end], d, p);
      if stripe.None? { return None; }
      ChunksPack(size, chunks, i, end);
      StripeStep(sha, code, d, p, stripes, before, chunks, i, end);
      StripesStep(sha, code, d, p, chunks, i, end);
      stripes, i := stripes + [stripe.value], end;
    }
    assert chunks[..|chunks|] == chunks;
    r := Some(stripes);
  }

  /** Re-chunks a stream onto the end of a chunk map, in that map's own mode. */
  method Extend(sha: Sha, code: Code, place: Digest -> bool, size: nat, was: ChunkMap, stream: Raw, ghost before: Raw)
    returns (r: Option<ChunkMap>)
    requires size > 0 && Stores(sha, code, was, before)
    ensures r.Some? ==> Stores(sha, code, r.value, before + stream) && SameMode(was, r.value)
    ensures r.Some? && Open(sha, code, size, was, before) ==> LaidOut(sha, code, size, r.value, before + stream)
    ensures (forall h :: place(h)) ==> r.Some?
  {
    var chunks := ChunkUp(size, stream);
    if Open(sha, code, size, was, before) {
      ghost var full :| OpenAs(sha, code, size, was, before, full);
      ExtendsLayout(sha, code, size, was, before, full, chunks, Grown(sha, code, was, chunks));
    }
    match was
    case Replica(refs) =>
      var more := AddChunks(sha, place, refs, chunks, before);
      r := if more.Some? then Some(Replica(more.value)) else None;
    case Ec(d, p, stripes) =>
      var more := AddStripes(sha, code, place, d, p, stripes, size, chunks, before);
      r := if more.Some? then Some(Ec(d, p, more.value)) else None;
  }

  /** Appending never changes a blob's mode or geometry. */
  predicate SameMode(a: ChunkMap, b: ChunkMap) {
    a.Replica? == b.Replica? && (a.Ec? ==> b.dataShards == a.dataShards && b.parityShards == a.parityShards)
  }

  // --- write ---------------------------------------------------------------------------------------

  /** Single-chunk blobs replicate; so do all blobs on small clusters or by policy. */
  predicate UsesEc(chunks: nat, nodes: nat, ecEnabled: bool) {
    chunks > 1 && nodes >= 3 && ecEnabled
  }

  lemma HashStep(sha: Sha, a: Raw, b: Raw)
    requires ShaOk(sha)
    ensures sha.update(sha.update(sha.init, a), b) == sha.update(sha.init, a + b)
  {
  }

  /** Hashing and counting the chunks as they pass. */
  method HashChunks(sha: Sha, chunks: seq<Raw>) returns (whole: Raw, total: nat)
    requires ShaOk(sha)
    ensures whole == sha.update(sha.init, Concat(chunks)) && total == |Concat(chunks)|
  {
    whole, total := sha.init, 0;
    assert chunks[..0] == [];
    for i := 0 to |chunks|
      invariant whole == sha.update(sha.init, Concat(chunks[..i])) && total == |Concat(chunks[..i])|
    {
      ConcatStep(chunks, i);
      HashStep(sha, Concat(chunks[..i]), chunks[i]);
      whole, total := sha.update(whole, chunks[i]), total + |chunks[i]|;
    }
    assert chunks[..|chunks|] == chunks;
  }

  lemma NothingOpen(sha: Sha, code: Code, size: nat, m: ChunkMap)
    requires m == Replica([]) || (m.Ec? && m.dataShards > 0 && m.stripes == [])
    ensures Open(sha, code, size, m, [])
  {
    assert RefsOf(sha, []) == [];
    assert OpenAs(sha, code, size, m, [], []);
  }

  /** A new blob: its manifest describes the stream, and its hash can be resumed. */
  method Write(sha: Sha, code: Code, place: Digest -> bool, size: nat, nodes: nat, ecEnabled: bool, d: nat, p: nat, stream: Raw)
    returns (r: Option<Manifest>)
    requires ShaOk(sha) && size > 0 && d > 0
    ensures r.Some? ==> Describes(sha, code, r.value, stream, [stream]) && !r.value.composite && r.value.hashState.Some?
    ensures r.Some? ==> (r.value.chunkMap.Ec? <==> |stream| > size && nodes >= 3 && ecEnabled)
    ensures r.Some? && r.value.chunkMap.Ec? ==> r.value.chunkMap.dataShards == d && r.value.chunkMap.parityShards == p
    ensures r.Some? ==> LaidOut(sha, code, size, r.value.chunkMap, stream)
    ensures (forall h :: place(h)) ==> r.Some?
  {
    var chunks := ChunkUp(size, stream);
    ManyChunks(size, chunks);
    var whole, total := HashChunks(sha, chunks);
    NothingStored(sha, code, d, p);
    var empty := if UsesEc(|chunks|, nodes, ecEnabled) then Ec(d, p, []) else Replica([]);
    NothingOpen(sha, code, size, empty);
    var stored := Extend(sha, code, place, size, empty, stream, []);
    if stored.None? { return None; }
    assert [] + stream == stream;
    PlainDigest(sha, stream);
    r := Some(Manifest(total, sha.sum(whole), stored.value, Some(whole), false));
  }

  lemma PlainDigest(sha: Sha, content: Raw)
    ensures Join(HashAll(sha, [content])) == Hash(sha, content) && Concat([content]) == content
  {
    ConcatOne(content);
  }
}
