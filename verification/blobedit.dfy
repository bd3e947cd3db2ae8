/**
 Growing and joining blobs. Appending re-chunks only a partial tail and resumes
 the hash; splicing joins chunk maps by reference and re-encodes only what
 does not fit. Either way the manifest describes the concatenation.
 */
module BlobEdit {
  import opened Bytes
  import opened Layout
  import opened Blob
  import opened BlobLayout
  import opened BlobWrite
  import opened BlobRead

  datatype Edit = Unsupported | Failed | Done(manifest: Manifest)

  datatype Tail = NoTail | Tail(rest: ChunkMap, bytes: Raw)

  /** A way to cut stored content in two: what stays, and the tail's bytes. */
  ghost predicate Cuts(sha: Sha, code: Code, was: ChunkMap, content: Raw, rest: ChunkMap, before: Raw, tail: Raw) {
    Stores(sha, code, rest, before) && before + tail == content && SameMode(was, rest)
  }

  lemma CutChunk(sha: Sha, code: Code, chunks: seq<Ref>, content: Raw) returns (before: Raw, last: Raw)
    requires chunks != [] && HoldsChunks(sha, chunks, content)
    ensures Cuts(sha, code, Replica(chunks), content, Replica(chunks[..|chunks| - 1]), before, last)
    ensures chunks[|chunks| - 1] == Ref(Hash(sha, last), |last|)
  {
    var pieces :| chunks == RefsOf(sha, pieces) && Concat(pieces) == content;
    var n := |chunks| - 1;
    before, last := Concat(pieces[..n]), pieces[n];
    ConcatStep(pieces, n);
    assert pieces[..n + 1] == pieces;
    assert RefsOf(sha, pieces[..n]) == chunks[..n];
  }

  lemma CutStripe(sha: Sha, code: Code, d: nat, p: nat, stripes: seq<Stripe>, content: Raw) returns (before: Raw, last: Raw)
    requires d > 0 && stripes != [] && HoldsStripes(sha, code, d, p, stripes, content)
    ensures Cuts(sha, code, Ec(d, p, stripes), content, Ec(d, p, stripes[..|stripes| - 1]), before, last)
    ensures IsStripe(sha, code, d, p, stripes[|stripes| - 1], last)
  {
    var spans :| HoldsSpans(sha, code, d, p, stripes, spans) && Concat(spans) == content;
    var n := |stripes| - 1;
    before, last := Concat(spans[..n]), spans[n];
    ConcatStep(spans, n);
    assert spans[..n + 1] == spans;
    assert IsStripe(sha, code, d, p, stripes[n], spans[n]);
    forall i | 0 <= i < n ensures IsStripe(sha, code, d, p, stripes[..n][i], spans[..n][i]) {
      assert IsStripe(sha, code, d, p, stripes[i], spans[i]);
    }
    assert HoldsSpans(sha, code, d, p, stripes[..n], spans[..n]);
  }

  /** Takes a partial last chunk or stripe off, so appended data packs fully. */
  method DetachTail(sha: Sha, code: Code, fetch: Digest -> Option<Raw>, size: nat, was: ChunkMap, ghost content: Raw)
    returns (ok: bool, rest: ChunkMap, tail: Raw, ghost before: Raw)
    requires ShaOk(sha) && CodeOk(code) && Honest(sha, fetch) && Stores(sha, code, was, content)
    ensures ok ==> Cuts(sha, code, was, content, rest, before, tail)
    ensures ok && size > 0 && LaidOut(sha, code, size, was, content) ==> Open(sha, code, size, rest, before)
    ensures CanRead(fetch, was) ==> ok
  {
    ok, rest, tail, before := true, was, [], content;
    assert content + [] == content;
    match was
    case Replica(chunks) =>
      var n := |chunks|;
      if n == 0 || chunks[n - 1].size >= size {
        if LaidOut(sha, code, size, was, content) { FullChunkStays(sha, code, size, chunks, content); }
        return;
      }
      ghost var last;
      before, last := CutChunk(sha, code, chunks, content);
      FetchIsExact(sha, fetch, last);
      var data := fetch(chunks[n - 1].hash);
      if data.None? { return false, was, [], content; }
      rest, tail := Replica(chunks[..n - 1]), data.value;
      if LaidOut(sha, code, size, was, content) { ShortChunkOff(sha, code, size, chunks, content, before, tail); }
    case Ec(d, p, stripes) =>
      var n := |stripes|;
      if n == 0 || stripes[n - 1].dataLen >= d * size {
        if size > 0 && LaidOut(sha, code, size, was, content) { FullStripeStays(sha, code, size, d, p, stripes, content); }
        return;
      }
      ghost var last;
      before, last := CutStripe(sha, code, d, p, stripes, content);
      var data := ReadStripe(sha, code, fetch, d, p, stripes[n - 1], last);
      if data.Fail? { return false, was, [], content; }
      rest, tail := Ec(d, p, stripes[..n - 1]), data.bytes;
      if LaidOut(sha, code, size, was, content) { ShortStripeOff(sha, code, size, d, p, stripes, content, before, tail); }
  }

  /** The running hash: from the stored midstate, or by one full read. */
  method ResumeHash(sha: Sha, code: Code, fetch: Digest -> Option<Raw>, m: Manifest, ghost content: Raw) returns (state: Option<Raw>)
    requires ShaOk(sha) && CodeOk(code) && Honest(sha, fetch) && !m.composite && Describes(sha, code, m, content, [content])
    ensures state.Some? ==> state.value == sha.update(sha.init, content)
    ensures CanRead(fetch, m.chunkMap) ==> state.Some?
  {
    if m.hashState.Some? { return m.hashState; }
    var all := Read(sha, code, fetch, m.chunkMap, content);
    state := if all.Fail? then None else Some(sha.update(sha.init, all.bytes));
  }

  /**
   Appending: the result describes old content followed by new, with a true
   whole-blob digest; composite blobs are refused.
   */
  method Append(sha: Sha, code: Code, fetch: Digest -> Option<Raw>, place: Digest -> bool, size: nat, m: Manifest, stream: Raw,
                ghost content: Raw, ghost parts: seq<Raw>) returns (r: Edit)
    requires ShaOk(sha) && CodeOk(code) && Honest(sha, fetch) && size > 0 && Describes(sha, code, m, content, parts)
    ensures r.Unsupported? <==> m.composite
    ensures r.Done? ==> Describes(sha, code, r.manifest, content + stream, [content + stream])
    ensures r.Done? ==> !r.manifest.composite && r.manifest.hashState.Some? && SameMode(m.chunkMap, r.manifest.chunkMap)
    ensures r.Done? && LaidOut(sha, code, size, m.chunkMap, content) ==> LaidOut(sha, code, size, r.manifest.chunkMap, content + stream)
    ensures !m.composite && CanRead(fetch, m.chunkMap) && (forall h :: place(h)) ==> r.Done?
  {
    if m.composite { return Unsupported; }
    PlainParts(sha, code, m, content, parts);
    var whole := ResumeHash(sha, code, fetch, m, content);
    if whole.None? { return Failed; }
    var grown := Regrow(sha, code, fetch, place, size, m.chunkMap, stream, content);
    if grown.None? { return Failed; }
    GrownDescribes(sha, code, content, stream, whole.value, grown.value);
    var state := sha.update(whole.value, stream);
    r := Done(Manifest(m.size + |stream|, sha.sum(state), grown.value, Some(state), false));
  }

  /** The chunk map with the tail taken off and re-chunked along with the stream. */
  method Regrow(sha: Sha, code: Code, fetch: Digest -> Option<Raw>, place: Digest -> bool, size: nat, was: ChunkMap, stream: Raw, ghost content: Raw)
    returns (r: Option<ChunkMap>)
    requires ShaOk(sha) && CodeOk(code) && Honest(sha, fetch) && size > 0 && Stores(sha, code, was, content)
    ensures r.Some? ==> Stores(sha, code, r.value, content + stream) && SameMode(was, r.value)
    ensures r.Some? && LaidOut(sha, code, size, was, content) ==> LaidOut(sha, code, size, r.value, content + stream)
    ensures CanRead(fetch, was) && (forall h :: place(h)) ==> r.Some?
  {
    ghost var before;
    var ok, rest, tail;
    ok, rest, tail, before := DetachTail(sha, code, fetch, size, was, content);
    if !ok { return None; }
    r := Extend(sha, code, place, size, rest, tail + stream, before);
    assert before + (tail + stream) == before + tail + stream;
  }

  lemma GrownDescribes(sha: Sha, code: Code, content: Raw, stream: Raw, whole: Raw, grown: ChunkMap)
    requires ShaOk(sha) && whole == sha.update(sha.init, content) && Stores(sha, code, grown, content + stream)
    ensures var state := sha.update(whole, stream);
            Describes(sha, code, Manifest(|content| + |stream|, sha.sum(state), grown, Some(state), false), content + stream, [content + stream])
  {
    HashStep(sha, content, stream);
    PlainDigest(sha, content + stream);
  }

  lemma PlainParts(sha: Sha, code: Code, m: Manifest, content: Raw, parts: seq<Raw>)
    requires !m.composite && Describes(sha, code, m, content, parts)
    ensures parts == [content]
  {
    assert parts == [parts[0]];
    ConcatOne(parts[0]);
  }

  // --- splice ---------------------------------------------------------------------------------

  function FlattenParts(parts: seq<seq<Raw>>): seq<Raw>
    decreases |parts|
  {
    if parts == [] then [] else FlattenParts(parts[..|parts| - 1]) + parts[|parts| - 1]
  }

  lemma PartsStep(parts: seq<seq<Raw>>, i: nat)
    requires i < |parts|
    ensures FlattenParts(parts[..i + 1]) == FlattenParts(parts[..i]) + parts[i]
  {
    assert parts[..i + 1][..i] == parts[..i];
  }

  lemma HashAllAppend(sha: Sha, a: seq<Raw>, b: seq<Raw>)
    ensures HashAll(sha, a + b) == HashAll(sha, a) + HashAll(sha, b)
  {
  }

  /** The destination takes the first erasure-coded source's geometry, if any. */
  method Destination(srcs: seq<Manifest>) returns (m: ChunkMap)
    ensures (m == Replica([]) && forall i :: 0 <= i < |srcs| ==> srcs[i].chunkMap.Replica?)
         || (exists i :: 0 <= i < |srcs| && srcs[i].chunkMap.Ec? && m == Ec(srcs[i].chunkMap.dataShards, srcs[i].chunkMap.parityShards, [])
               && forall j :: 0 <= j < i ==> srcs[j].chunkMap.Replica?)
  {
    for i := 0 to |srcs|
      invariant forall j :: 0 <= j < i ==> srcs[j].chunkMap.Replica?
    {
      if srcs[i].chunkMap.Ec? { return Ec(srcs[i].chunkMap.dataShards, srcs[i].chunkMap.parityShards, []); }
    }
    m := Replica([]);
  }

  function ByReference(dst: ChunkMap, src: ChunkMap): ChunkMap
    requires SameMode(dst, src)
  {
    match dst
    case Replica(chunks) => Replica(chunks + src.chunks)
    case Ec(d, p, stripes) => Ec(d, p, stripes + src.stripes)
  }

  /** Every source a replica and so the result, or the first coded source's geometry. */
  predicate TakesMode(srcs: seq<Manifest>, m: ChunkMap) {
    || (m.Replica? && forall i :: 0 <= i < |srcs| ==> srcs[i].chunkMap.Replica?)
    || (m.Ec? && exists i :: 0 <= i < |srcs| && srcs[i].chunkMap.Ec? && SameMode(srcs[i].chunkMap, m) && forall j :: 0 <= j < i ==> srcs[j].chunkMap.Replica?)
  }

  /** By reference where mode and geometry match, else read back and re-encoded. */
  method AddSource(sha: Sha, code: Code, fetch: Digest -> Option<Raw>, place: Digest -> bool, size: nat, dst: ChunkMap, src: ChunkMap,
                   ghost before: Raw, ghost content: Raw) returns (r: Option<ChunkMap>)
    requires ShaOk(sha) && CodeOk(code) && Honest(sha, fetch) && size > 0
    requires Stores(sha, code, dst, before) && Stores(sha, code, src, content)
    ensures r.Some? ==> Stores(sha, code, r.value, before + content) && SameMode(dst, r.value)
    ensures SameMode(dst, src) ==> r == Some(ByReference(dst, src))
    ensures SameMode(dst, src) || (CanRead(fetch, src) && forall h :: place(h)) ==> r.Some?
  {
    if SameMode(dst, src) {
      match dst
      case Replica(chunks) =>
        ChunksJoin(sha, chunks, before, src.chunks, content);
        return Some(Replica(chunks + src.chunks));
      case Ec(d, p, stripes) =>
        StripesJoin(sha, code, d, p, stripes, before, src.stripes, content);
        return Some(Ec(d, p, stripes + src.stripes));
    }
    var all := Read(sha, code, fetch, src, content);
    if all.Fail? { return None; }
    r := Extend(sha, code, place, size, dst, all.bytes, before);
  }

  ghost predicate AllDescribed(sha: Sha, code: Code, srcs: seq<Manifest>, contents: seq<Raw>, parts: seq<seq<Raw>>) {
    && |contents| == |srcs| && |parts| == |srcs|
    && forall i {:trigger srcs[i]} :: 0 <= i < |srcs| ==> Describes(sha, code, srcs[i], contents[i], parts[i])
  }

  /** What has been joined once the first i sources are in. */
  ghost predicate Joined(sha: Sha, code: Code, dst: ChunkMap, total: nat, components: seq<Digest>, contents: seq<Raw>, parts: seq<seq<Raw>>) {
    && Stores(sha, code, dst, Concat(contents)) && total == |Concat(contents)|
    && components == HashAll(sha, FlattenParts(parts)) && Concat(FlattenParts(parts)) == Concat(contents)
    && |FlattenParts(parts)| >= |parts|
  }

  lemma JoinStep(sha: Sha, code: Code, dst: ChunkMap, dst': ChunkMap, total: nat, components: seq<Digest>,
                 contents: seq<Raw>, parts: seq<seq<Raw>>, i: nat, m: Manifest)
    requires ShaOk(sha) && i < |contents| == |parts| && Describes(sha, code, m, contents[i], parts[i])
    requires Joined(sha, code, dst, total, components, contents[..i], parts[..i])
    requires Stores(sha, code, dst', Concat(contents[..i]) + contents[i])
    ensures Joined(sha, code, dst', total + m.size, components + HashComponents(m), contents[..i + 1], parts[..i + 1])
  {
    ConcatStep(contents, i);
    PartsStep(parts, i);
    ConcatAppend(FlattenParts(parts[..i]), parts[i]);
    HashAllAppend(sha, FlattenParts(parts[..i]), parts[i]);
    ComponentsAreParts(sha, code, m, contents[i], parts[i]);
  }

  lemma JoinStart(sha: Sha, code: Code, srcs: seq<Manifest>, contents: seq<Raw>, parts: seq<seq<Raw>>, dst: ChunkMap)
    requires AllDescribed(sha, code, srcs, contents, parts)
    requires dst == Replica([]) || exists i :: 0 <= i < |srcs| && srcs[i].chunkMap.Ec? && dst == Ec(srcs[i].chunkMap.dataShards, srcs[i].chunkMap.parityShards, [])
    ensures Joined(sha, code, dst, 0, [], contents[..0], parts[..0])
  {
    if dst.Ec? {
      var i :| 0 <= i < |srcs| && srcs[i].chunkMap.Ec? && dst == Ec(srcs[i].chunkMap.dataShards, srcs[i].chunkMap.parityShards, []);
      assert Describes(sha, code, srcs[i], contents[i], parts[i]);
      NothingStored(sha, code, dst.dataShards, dst.parityShards);
    } else {
      NothingStored(sha, code, 1, 0);
    }
    assert contents[..0] == [] && parts[..0] == [];
  }

  lemma OneSource(contents: seq<Raw>, parts: seq<seq<Raw>>)
    requires |contents| == |parts| == 1
    ensures Concat(contents) == contents[0] && FlattenParts(parts) == parts[0]
  {
    ConcatOne(contents[0]);
    assert contents == [contents[0]] && parts[..0] == [] && [] + parts[0] == parts[0];
  }

  lemma JoinedDescribes(sha: Sha, code: Code, dst: ChunkMap, total: nat, components: seq<Digest>, contents: seq<Raw>, parts: seq<seq<Raw>>)
    requires Joined(sha, code, dst, total, components, contents, parts) && |parts| > 1
    ensures Describes(sha, code, Manifest(total, Blob.Join(components), dst, None, true), Concat(contents), FlattenParts(parts))
  {
  }

  /**
   Splicing: the result describes the sources' contents end to end, whatever
   mixture of modes and geometries they have, and its digest list is theirs.
   */
  method Splice(sha: Sha, code: Code, fetch: Digest -> Option<Raw>, place: Digest -> bool, size: nat, srcs: seq<Manifest>,
                ghost contents: seq<Raw>, ghost parts: seq<seq<Raw>>) returns (r: Edit)
    requires ShaOk(sha) && CodeOk(code) && Honest(sha, fetch) && size > 0 && AllDescribed(sha, code, srcs, contents, parts)
    ensures r.Done? ==> srcs != [] && Describes(sha, code, r.manifest, Concat(contents), FlattenParts(parts))
    ensures |srcs| == 1 ==> r == Done(srcs[0])
    ensures r.Done? && |srcs| > 1 ==> r.manifest.composite && TakesMode(srcs, r.manifest.chunkMap)
    ensures srcs != [] && (forall i :: 0 <= i < |srcs| ==> SameMode(srcs[0].chunkMap, srcs[i].chunkMap)) ==> r.Done?
    ensures srcs != [] && (forall i :: 0 <= i < |srcs| ==> CanRead(fetch, srcs[i].chunkMap)) && (forall h :: place(h)) ==> r.Done?
  {
    if |srcs| == 0 { return Failed; }
    if |srcs| == 1 {
      assert Describes(sha, code, srcs[0], contents[0], parts[0]);
      OneSource(contents, parts);
      return Done(srcs[0]);
    }
    var ok, dst, total, components := JoinSources(sha, code, fetch, place, size, srcs, contents, parts);
    if !ok { return Failed; }
    JoinedDescribes(sha, code, dst, total, components, contents, parts);
    r := Done(Manifest(total, Blob.Join(components), dst, None, true));
  }

  /** The loop over the sources: sizes add up, digests and chunk maps join. */
  method JoinSources(sha: Sha, code: Code, fetch: Digest -> Option<Raw>, place: Digest -> bool, size: nat, srcs: seq<Manifest>,
                     ghost contents: seq<Raw>, ghost parts: seq<seq<Raw>>)
    returns (ok: bool, dst: ChunkMap, total: nat, components: seq<Digest>)
    requires ShaOk(sha) && CodeOk(code) && Honest(sha, fetch) && size > 0 && AllDescribed(sha, code, srcs, contents, parts)
    ensures ok ==> Joined(sha, code, dst, total, components, contents, parts) && TakesMode(srcs, dst)
    ensures srcs != [] && (forall i :: 0 <= i < |srcs| ==> SameMode(srcs[0].chunkMap, srcs[i].chunkMap)) ==> ok
    ensures (forall i :: 0 <= i < |srcs| ==> CanRead(fetch, srcs[i].chunkMap)) && (forall h :: place(h)) ==> ok
  {
    dst := Destination(srcs);
    ok, total, components := true, 0, [];
    JoinStart(sha, code, srcs, contents, parts, dst);
    for i := 0 to |srcs|
      invariant ok && Joined(sha, code, dst, total, components, contents[..i], parts[..i]) && TakesMode(srcs, dst)
    {
      assert Describes(sha, code, srcs[i], contents[i], parts[i]);
      var more := AddSource(sha, code, fetch, place, size, dst, srcs[i].chunkMap, Concat(contents[..i]), contents[i]);
      if more.None? {
        ok := false;
        return;
      }
      JoinStep(sha, code, dst, more.value, total, components, contents, parts, i, srcs[i]);
      dst, total, components := more.value, total + srcs[i].size, components + HashComponents(srcs[i]);
    }
    assert contents[..|srcs|] == contents && parts[..|srcs|] == parts;
  }
}
