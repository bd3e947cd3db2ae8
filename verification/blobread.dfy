/**
 Reading blobs back, whole or in part, from whatever copies can still be
 fetched: the bytes are the described content or the read fails.
 */
module BlobRead {
  import opened Bytes
  import opened Layout
  import opened Blob

  datatype Out = Fail | Ok(bytes: Raw)

  /** Local disk, recorded nodes, then any node; every copy is rehashed. */
  ghost predicate Honest(sha: Sha, fetch: Digest -> Option<Raw>) {
    forall h {:trigger fetch(h)} :: fetch(h).Some? ==> Hash(sha, fetch(h).value) == h
  }

  lemma FetchIsExact(sha: Sha, fetch: Digest -> Option<Raw>, x: Raw)
    requires ShaOk(sha) && Honest(sha, fetch)
    ensures fetch(Hash(sha, x)).None? || fetch(Hash(sha, x)) == Some(x)
  {
  }

  // --- stripes --------------------------------------------------------------------------------

  function MaskOf(fetch: Digest -> Option<Raw>, shards: seq<Ref>): (mask: seq<Option<Raw>>)
    ensures |mask| == |shards| && forall i :: 0 <= i < |mask| ==> mask[i] == fetch(shards[i].hash)
  {
    seq(|shards|, i requires 0 <= i < |shards| => fetch(shards[i].hash))
  }

  /** At least as many shards can be fetched as the stripe has data shards. */
  predicate Enough(fetch: Digest -> Option<Raw>, d: nat, stripe: Stripe) {
    Available(MaskOf(fetch, stripe.shards)) >= d
  }

  lemma {:induction false} AvailableAppend(mask: seq<Option<Raw>>, x: Option<Raw>)
    ensures Available(mask + [x]) == Available(mask) + if x.Some? then 1 else 0
    decreases |mask|
  {
    if mask == [] {
      assert mask + [x] == [x] && [x][1..] == [];
    } else {
      AvailableAppend(mask[1..], x);
      assert (mask + [x])[1..] == mask[1..] + [x];
    }
  }

  predicate IsPadding(shards: seq<Raw>, chunks: seq<Raw>, n: nat) {
    && |chunks| <= |shards|
    && (forall i :: 0 <= i < |chunks| ==> |chunks[i]| <= n && shards[i] == chunks[i] + Zeros(n - |chunks[i]|))
  }

  /** With padding only in the last chunk, trimming recovers the bytes. */
  lemma {:induction false} TrimPadding(shards: seq<Raw>, chunks: seq<Raw>, n: nat)
    requires IsPadding(shards, chunks, n) && forall i :: 0 <= i < |chunks| - 1 ==> |chunks[i]| == n
    ensures |Concat(chunks)| <= |Concat(shards)| && Concat(shards)[..|Concat(chunks)|] == Concat(chunks)
    decreases |chunks|
  {
    if |chunks| > 1 {
      TrimPadding(shards[1..], chunks[1..], n);
      assert shards[0] == chunks[0];
    } else if |chunks| == 1 {
      ConcatOne(chunks[0]);
      assert chunks == [chunks[0]];
    }
  }

  lemma StripeShards(sha: Sha, code: Code, d: nat, p: nat, stripe: Stripe, chunks: seq<Raw>, fetch: Digest -> Option<Raw>)
    requires ShaOk(sha) && CodeOk(code) && Honest(sha, fetch) && StripeHolds(sha, code, d, p, stripe, chunks)
    ensures Partial(MaskOf(fetch, stripe.shards), Codeword(code, chunks, d, p))
    ensures Available(MaskOf(fetch, stripe.shards)) >= d ==> code.rebuild(d, p, MaskOf(fetch, stripe.shards)) == Some(Codeword(code, chunks, d, p))
  {
    var full, mask := Codeword(code, chunks, d, p), MaskOf(fetch, stripe.shards);
    forall i | 0 <= i < |mask| && mask[i].Some? ensures mask[i].value == full[i] { FetchIsExact(sha, fetch, full[i]); }
    assert Rebuilds(code, Padded(chunks, d), p);
  }

  method FetchShards(fetch: Digest -> Option<Raw>, refs: seq<Ref>) returns (shards: seq<Option<Raw>>, available: nat)
    ensures shards == MaskOf(fetch, refs) && available == Available(shards)
  {
    shards, available := [], 0;
    for i := 0 to |refs|
      invariant shards == MaskOf(fetch, refs[..i]) && available == Available(shards)
    {
      var data := fetch(refs[i].hash);
      AvailableAppend(shards, data);
      if data.Some? { available := available + 1; }
      shards := shards + [data];
    }
    assert refs[..|refs|] == refs;
  }

  method Join(shards: seq<Raw>, d: nat) returns (buf: Raw)
    requires d <= |shards|
    ensures buf == Concat(shards[..d])
  {
    buf := [];
    assert shards[..0] == [];
    for i := 0 to d
      invariant buf == Concat(shards[..i])
    {
      ConcatStep(shards, i);
      buf := buf + shards[i];
    }
  }

  lemma CodewordData(code: Code, chunks: seq<Raw>, d: nat, p: nat)
    requires 0 < |chunks| <= d && Packed(chunks)
    ensures d <= |Codeword(code, chunks, d, p)|
    ensures var all := Concat(Codeword(code, chunks, d, p)[..d]);
            |Concat(chunks)| <= |all| && all[..|Concat(chunks)|] == Concat(chunks)
  {
    var data := Padded(chunks, d);
    assert Codeword(code, chunks, d, p)[..d] == data;
    TrimPadding(data, chunks, MaxLen(chunks));
  }

  /** Gathers what shards it can, reconstructs, and trims the padding off. */
  method ReadStripe(sha: Sha, code: Code, fetch: Digest -> Option<Raw>, d: nat, p: nat, stripe: Stripe, ghost bytes: Raw) returns (r: Out)
    requires ShaOk(sha) && CodeOk(code) && Honest(sha, fetch) && IsStripe(sha, code, d, p, stripe, bytes)
    ensures r == if Enough(fetch, d, stripe) then Ok(bytes) else Fail
  {
    var shards, available := FetchShards(fetch, stripe.shards);
    if available < d { return Fail; }
    ghost var chunks :| StripeHolds(sha, code, d, p, stripe, chunks) && Concat(chunks) == bytes;
    StripeShards(sha, code, d, p, stripe, chunks, fetch);
    CodewordData(code, chunks, d, p);
    var full := code.rebuild(d, p, shards);
    var buf := Join(full.value, d);
    r := Ok(buf[..stripe.dataLen]);
  }

  // --- whole blobs --------------------------------------------------------------------------------

  /** Every chunk, or enough shards of every stripe, can still be fetched. */
  predicate CanRead(fetch: Digest -> Option<Raw>, m: ChunkMap) {
    match m
    case Replica(chunks) => forall i :: 0 <= i < |chunks| ==> fetch(chunks[i].hash).Some?
    case Ec(d, _, stripes) => forall i :: 0 <= i < |stripes| ==> Enough(fetch, d, stripes[i])
  }

  /** Each reference fetches its own piece or nothing. */
  ghost predicate Exact(fetch: Digest -> Option<Raw>, refs: seq<Ref>, pieces: seq<Raw>) {
    |refs| == |pieces| && forall i :: 0 <= i < |refs| ==> fetch(refs[i].hash).None? || fetch(refs[i].hash) == Some(pieces[i])
  }

  lemma RefsAreExact(sha: Sha, fetch: Digest -> Option<Raw>, pieces: seq<Raw>)
    requires ShaOk(sha) && Honest(sha, fetch)
    ensures Exact(fetch, RefsOf(sha, pieces), pieces)
  {
    var refs := RefsOf(sha, pieces);
    forall i | 0 <= i < |refs| ensures fetch(refs[i].hash).None? || fetch(refs[i].hash) == Some(pieces[i]) {
      FetchIsExact(sha, fetch, pieces[i]);
    }
  }

  method ReadChunks(fetch: Digest -> Option<Raw>, refs: seq<Ref>, ghost pieces: seq<Raw>) returns (r: Out)
    requires Exact(fetch, refs, pieces)
    ensures r == if CanRead(fetch, Replica(refs)) then Ok(Concat(pieces)) else Fail
  {
    var out := [];
    assert pieces[..0] == [];
    for i := 0 to |refs|
      invariant out == Concat(pieces[..i]) && forall j :: 0 <= j < i ==> fetch(refs[j].hash).Some?
    {
      var data := fetch(refs[i].hash);
      if data.None? { return Fail; }
      ConcatStep(pieces, i);
      out := out + data.value;
    }
    assert pieces[..|refs|] == pieces;
    r := Ok(out);
  }

  method ReadStripes(sha: Sha, code: Code, fetch: Digest -> Option<Raw>, d: nat, p: nat, stripes: seq<Stripe>, ghost spans: seq<Raw>) returns (r: Out)
    requires ShaOk(sha) && CodeOk(code) && Honest(sha, fetch) && HoldsSpans(sha, code, d, p, stripes, spans)
    ensures r == if CanRead(fetch, Ec(d, p, stripes)) then Ok(Concat(spans)) else Fail
  {
    var out := [];
    assert spans[..0] == [];
    for i := 0 to |stripes|
      invariant out == Concat(spans[..i])
      invariant forall j :: 0 <= j < i ==> Enough(fetch, d, stripes[j])
    {
      assert IsStripe(sha, code, d, p, stripes[i], spans[i]);
      var data := ReadStripe(sha, code, fetch, d, p, stripes[i], spans[i]);
      if data.Fail? { return Fail; }
      ConcatStep(spans, i);
      out := out + data.bytes;
    }
    assert spans[..|stripes|] == spans;
    r := Ok(out);
  }

  /**
   Reading a chunk map gives exactly what it stores whenever every chunk, or
   any dataShards shards of every stripe, can be fetched; otherwise it fails.
   */
  method Read(sha: Sha, code: Code, fetch: Digest -> Option<Raw>, m: ChunkMap, ghost content: Raw) returns (r: Out)
    requires ShaOk(sha) && CodeOk(code) && Honest(sha, fetch) && Stores(sha, code, m, content)
    ensures r == if CanRead(fetch, m) then Ok(content) else Fail
  {
    match m
    case Replica(chunks) =>
      ghost var pieces :| chunks == RefsOf(sha, pieces) && Concat(pieces) == content;
      RefsAreExact(sha, fetch, pieces);
      r := ReadChunks(fetch, chunks, pieces);
    case Ec(d, p, stripes) =>
      ghost var spans :| HoldsSpans(sha, code, d, p, stripes, spans) && Concat(spans) == content;
      r := ReadStripes(sha, code, fetch, d, p, stripes, spans);
  }

  // --- a manifest has one content -----------------------------------------------------------------

  lemma RefsDetermine(sha: Sha, a: seq<Raw>, b: seq<Raw>)
    requires ShaOk(sha) && RefsOf(sha, a) == RefsOf(sha, b)
    ensures a == b
  {
    forall i | 0 <= i < |a| ensures a[i] == b[i] { assert RefsOf(sha, a)[i] == RefsOf(sha, b)[i]; }
  }

  lemma StripeDetermines(sha: Sha, code: Code, d: nat, p: nat, stripe: Stripe, x: Raw, y: Raw)
    requires ShaOk(sha) && IsStripe(sha, code, d, p, stripe, x) && IsStripe(sha, code, d, p, stripe, y)
    ensures x == y
  {
    var a :| StripeHolds(sha, code, d, p, stripe, a) && Concat(a) == x;
    var b :| StripeHolds(sha, code, d, p, stripe, b) && Concat(b) == y;
    RefsDetermine(sha, Codeword(code, a, d, p), Codeword(code, b, d, p));
    CodewordData(code, a, d, p);
    CodewordData(code, b, d, p);
  }

  /** Two contents a chunk map could store are the same content. */
  lemma ContentUnique(sha: Sha, code: Code, m: ChunkMap, x: Raw, y: Raw)
    requires ShaOk(sha) && Stores(sha, code, m, x) && Stores(sha, code, m, y)
    ensures x == y
  {
    match m
    case Replica(chunks) =>
      var a :| chunks == RefsOf(sha, a) && Concat(a) == x;
      var b :| chunks == RefsOf(sha, b) && Concat(b) == y;
      RefsDetermine(sha, a, b);
    case Ec(d, p, stripes) =>
      var a :| HoldsSpans(sha, code, d, p, stripes, a) && Concat(a) == x;
      var b :| HoldsSpans(sha, code, d, p, stripes, b) && Concat(b) == y;
      forall i | 0 <= i < |stripes| ensures a[i] == b[i] {
        assert IsStripe(sha, code, d, p, stripes[i], a[i]) && IsStripe(sha, code, d, p, stripes[i], b[i]);
        StripeDetermines(sha, code, d, p, stripes[i], a[i], b[i]);
      }
      assert a == b;
  }
}
