/**
 Blob manifests: what content a chunk map describes, and that writing, reading
 and reconstructing agree about it.

 SHA-256 is any streaming hash without collisions. Reed-Solomon is any code
 that gives back a whole codeword from as many shards as it had data shards.
 */
module Blob {
  import opened Bytes
  import opened Layout

  type Raw = seq<Byte>

  type Digest = seq<Byte>

  /** The hash as a midstate that bytes are fed into. */
  datatype Sha = Sha(init: Raw, update: (Raw, Raw) -> Raw, sum: Raw -> Digest)

  /** Parity of equal-length data shards, and reconstruction from some shards. */
  datatype Code = Code(parity: (seq<Raw>, nat) -> seq<Raw>, rebuild: (nat, nat, seq<Option<Raw>>) -> Option<seq<Raw>>)

  datatype Ref = Ref(hash: Digest, size: nat)

  datatype Stripe = Stripe(shards: seq<Ref>, dataLen: nat)

  datatype ChunkMap =
    | Replica(chunks: seq<Ref>)
    | Ec(dataShards: nat, parityShards: nat, stripes: seq<Stripe>)

  datatype Manifest = Manifest(size: nat, sha256: seq<Byte>, chunkMap: ChunkMap, hashState: Option<Raw>, composite: bool)

  const COMMA: Byte := 44

  // --- the library contracts -----------------------------------------------------------------

  function Hash(sha: Sha, x: Raw): Digest {
    sha.sum(sha.update(sha.init, x))
  }

  ghost predicate ShaOk(sha: Sha) {
    && (forall s, a, b {:trigger sha.update(sha.update(s, a), b)} :: sha.update(sha.update(s, a), b) == sha.update(s, a + b))
    && (forall s :: sha.update(s, []) == s)
    && (forall a, b {:trigger Hash(sha, a), Hash(sha, b)} :: Hash(sha, a) == Hash(sha, b) ==> a == b)
    && (forall a {:trigger Hash(sha, a)} :: COMMA !in Hash(sha, a) && Hash(sha, a) != [])
  }

  predicate EqualLengths(shards: seq<Raw>) {
    forall i, j :: 0 <= i < |shards| && 0 <= j < |shards| ==> |shards[i]| == |shards[j]|
  }

  function Available(mask: seq<Option<Raw>>): nat {
    if mask == [] then 0 else (if mask[0].Some? then 1 else 0) + Available(mask[1..])
  }

  /** Every shard that is there is the codeword's. */
  predicate Partial(mask: seq<Option<Raw>>, full: seq<Raw>) {
    |mask| == |full| && forall i :: 0 <= i < |mask| && mask[i].Some? ==> mask[i].value == full[i]
  }

  ghost predicate Rebuilds(code: Code, data: seq<Raw>, p: nat) {
    && |code.parity(data, p)| == p
    && forall mask {:trigger code.rebuild(|data|, p, mask)} ::
         Partial(mask, data + code.parity(data, p)) && Available(mask) >= |data| ==>
           code.rebuild(|data|, p, mask) == Some(data + code.parity(data, p))
  }

  ghost predicate CodeOk(code: Code) {
    forall data, p: nat {:trigger code.parity(data, p)} :: data != [] && EqualLengths(data) ==> Rebuilds(code, data, p)
  }

  // --- pieces ----------------------------------------------------------------------------------

  function Concat(pieces: seq<Raw>): Raw {
    if pieces == [] then [] else pieces[0] + Concat(pieces[1..])
  }

  lemma {:induction false} ConcatAppend(a: seq<Raw>, b: seq<Raw>)
    ensures Concat(a + b) == Concat(a) + Concat(b)
    decreases |a|
  {
    if a == [] {
      assert a + b == b;
    } else {
      ConcatAppend(a[1..], b);
      assert (a + b)[1..] == a[1..] + b;
    }
  }

  lemma ConcatOne(x: Raw)
    ensures Concat([x]) == x
  {
    assert [x][1..] == [];
  }

  lemma ConcatStep(pieces: seq<Raw>, i: nat)
    requires i < |pieces|
    ensures Concat(pieces[..i + 1]) == Concat(pieces[..i]) + pieces[i]
  {
    assert pieces[..i + 1] == pieces[..i] + [pieces[i]];
    ConcatAppend(pieces[..i], [pieces[i]]);
    ConcatOne(pieces[i]);
  }

  function RefsOf(sha: Sha, pieces: seq<Raw>): (refs: seq<Ref>)
    ensures |refs| == |pieces| && forall i :: 0 <= i < |refs| ==> refs[i] == Ref(Hash(sha, pieces[i]), |pieces[i]|)
  {
    seq(|pieces|, i requires 0 <= i < |pieces| => Ref(Hash(sha, pieces[i]), |pieces[i]|))
  }

  // --- stripes ---------------------------------------------------------------------------------

  function MaxLen(chunks: seq<Raw>): (n: nat)
    ensures forall i :: 0 <= i < |chunks| ==> |chunks[i]| <= n
  {
    if chunks == [] then 0
    else
      var rest := MaxLen(chunks[1..]);
      assert forall i :: 0 < i < |chunks| ==> chunks[i] == chunks[1..][i - 1];
      if |chunks[0]| > rest then |chunks[0]| else rest
  }

  function Zeros(n: nat): (z: Raw)
    ensures |z| == n
  {
    seq(n, _ => 0)
  }

  /** The data shards: chunks padded to one length, missing ones all zero. */
  function Padded(chunks: seq<Raw>, d: nat): (shards: seq<Raw>)
    requires |chunks| <= d
    ensures |shards| == d && EqualLengths(shards)
  {
    var n := MaxLen(chunks);
    seq(d, i requires 0 <= i < d => if i < |chunks| then chunks[i] + Zeros(n - |chunks[i]|) else Zeros(n))
  }

  function Codeword(code: Code, chunks: seq<Raw>, d: nat, p: nat): seq<Raw>
    requires |chunks| <= d
  {
    Padded(chunks, d) + code.parity(Padded(chunks, d), p)
  }

  /** Only the last chunk of a stripe may be short, so padding comes last. */
  predicate Packed(chunks: seq<Raw>) {
    forall i :: 0 <= i < |chunks| - 1 ==> |chunks[i]| == MaxLen(chunks)
  }

  /** The stripe that stores these chunks. */
  function StripeOf(sha: Sha, code: Code, d: nat, p: nat, chunks: seq<Raw>): Stripe
    requires |chunks| <= d
  {
    Stripe(RefsOf(sha, Codeword(code, chunks, d, p)), |Concat(chunks)|)
  }

  ghost predicate IsStripe(sha: Sha, code: Code, d: nat, p: nat, stripe: Stripe, bytes: Raw) {
    exists chunks :: StripeHolds(sha, code, d, p, stripe, chunks) && Concat(chunks) == bytes
  }

  ghost predicate StripeHolds(sha: Sha, code: Code, d: nat, p: nat, stripe: Stripe, chunks: seq<Raw>) {
    0 < |chunks| <= d && Packed(chunks) && stripe == StripeOf(sha, code, d, p, chunks)
  }

  // --- what a manifest describes ------------------------------------------------------------------

  ghost predicate HoldsChunks(sha: Sha, refs: seq<Ref>, content: Raw) {
    exists pieces :: refs == RefsOf(sha, pieces) && Concat(pieces) == content
  }

  ghost predicate HoldsSpans(sha: Sha, code: Code, d: nat, p: nat, stripes: seq<Stripe>, spans: seq<Raw>) {
    && |spans| == |stripes|
    && forall i {:trigger IsStripe(sha, code, d, p, stripes[i], spans[i])} :: 0 <= i < |stripes| ==> IsStripe(sha, code, d, p, stripes[i], spans[i])
  }

  ghost predicate HoldsStripes(sha: Sha, code: Code, d: nat, p: nat, stripes: seq<Stripe>, content: Raw) {
    exists spans :: HoldsSpans(sha, code, d, p, stripes, spans) && Concat(spans) == content
  }

  ghost predicate Stores(sha: Sha, code: Code, chunkMap: ChunkMap, content: Raw) {
    match chunkMap
    case Replica(chunks) => HoldsChunks(sha, chunks, content)
    case Ec(d, p, stripes) => d > 0 && HoldsStripes(sha, code, d, p, stripes, content)
  }

  /** The digest field: one digest, or the sources' digests joined by commas. */
  ghost predicate Digests(sha: Sha, m: Manifest, parts: seq<Raw>) {
    && parts != [] && m.sha256 == Join(HashAll(sha, parts))
    && (if m.composite then m.hashState.None? && |parts| > 1
        else |parts| == 1 && (m.hashState.Some? ==> m.hashState.value == sha.update(sha.init, parts[0])))
  }

  /** The manifest is truthful about `content`, made of the given parts. */
  ghost predicate Describes(sha: Sha, code: Code, m: Manifest, content: Raw, parts: seq<Raw>) {
    && m.size == |content| && Stores(sha, code, m.chunkMap, content)
    && Concat(parts) == content && Digests(sha, m, parts)
  }

  // --- digest lists -----------------------------------------------------------------------------------

  function HashAll(sha: Sha, parts: seq<Raw>): (ds: seq<Digest>)
    ensures |ds| == |parts| && forall i :: 0 <= i < |ds| ==> ds[i] == Hash(sha, parts[i])
  {
    seq(|parts|, i requires 0 <= i < |parts| => Hash(sha, parts[i]))
  }

  /** strings.Join with a comma. */
  function Join(ds: seq<Digest>): seq<Byte> {
    if ds == [] then [] else if |ds| == 1 then ds[0] else ds[0] + [COMMA] + Join(ds[1..])
  }

  function FirstComma(s: seq<Byte>): (i: nat)
    ensures i <= |s| && COMMA !in s[..i] && (i < |s| ==> s[i] == COMMA)
  {
    if s == [] || s[0] == COMMA then 0
    else
      var i := 1 + FirstComma(s[1..]);
      assert s[..i] == [s[0]] + s[1..][..i - 1];
      i
  }

  /** strings.Split at commas. */
  function SplitCommas(s: seq<Byte>): seq<Digest>
    decreases |s|
  {
    var i := FirstComma(s);
    if i == |s| then [s] else [s[..i]] + SplitCommas(s[i + 1..])
  }

  lemma {:induction false} FirstCommaAfter(d: Digest, tail: seq<Byte>)
    requires COMMA !in d
    ensures FirstComma(d) == |d| && FirstComma(d + [COMMA] + tail) == |d|
    decreases |d|
  {
    var s := d + [COMMA] + tail;
    if d != [] {
      FirstCommaAfter(d[1..], tail);
      assert s[0] == d[0] && s[1..] == d[1..] + [COMMA] + tail;
    }
  }

  lemma {:induction false} SplitJoin(ds: seq<Digest>)
    requires ds != [] && forall i :: 0 <= i < |ds| ==> COMMA !in ds[i]
    ensures SplitCommas(Join(ds)) == ds
    decreases |ds|
  {
    if |ds| == 1 {
      FirstCommaAfter(ds[0], []);
    } else {
      SplitJoin(ds[1..]);
      SplitHead(ds[0], Join(ds[1..]));
      assert [ds[0]] + ds[1..] == ds;
    }
  }

  lemma SplitHead(d: Digest, rest: seq<Byte>)
    requires COMMA !in d
    ensures SplitCommas(d + [COMMA] + rest) == [d] + SplitCommas(rest)
  {
    FirstCommaAfter(d, rest);
    var s := d + [COMMA] + rest;
    assert s[..|d|] == d && s[|d| + 1..] == rest;
  }

  function HashComponents(m: Manifest): seq<Digest> {
    if !m.composite then [m.sha256] else SplitCommas(m.sha256)
  }

  /** The recorded digests are those of the parts, left to right. */
  lemma ComponentsAreParts(sha: Sha, code: Code, m: Manifest, content: Raw, parts: seq<Raw>)
    requires ShaOk(sha) && Describes(sha, code, m, content, parts)
    ensures HashComponents(m) == HashAll(sha, parts)
    ensures !m.composite ==> m.sha256 == Hash(sha, content)
  {
    if m.composite {
      SplitJoin(HashAll(sha, parts));
    } else {
      assert parts == [parts[0]];
      ConcatOne(parts[0]);
    }
  }
}
