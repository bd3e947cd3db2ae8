/**
 The layout of a blob: which chunks a stream is cut into and which stripes they
 are coded in. Only the last chunk and the last stripe may be short, so the
 layout of a content is unique, and appending must arrive at the layout that
 writing everything at once would have had.
 */
module BlobLayout {
  import opened Bytes
  import opened Layout
  import opened Blob

  /** Non-empty chunks of the given size; only the last may be short. */
  predicate IsChunking(size: nat, chunks: seq<Raw>) {
    && (forall i :: 0 <= i < |chunks| ==> 0 < |chunks[i]| <= size)
    && (forall i :: 0 <= i < |chunks| - 1 ==> |chunks[i]| == size)
  }

  predicate AllFull(size: nat, chunks: seq<Raw>) {
    forall i :: 0 <= i < |chunks| ==> |chunks[i]| == size
  }

  /** The chunks fill whole stripes of d. */
  predicate Whole(d: nat, chunks: seq<Raw>)
    requires d > 0
  {
    chunks == [] || (d <= |chunks| && Whole(d, chunks[d..]))
  }

  /** Chunks in groups of d; the last group may have fewer. */
  function Groups(d: nat, chunks: seq<Raw>): (groups: seq<seq<Raw>>)
    requires d > 0
    ensures forall i :: 0 <= i < |groups| ==> 0 < |groups[i]| <= d
    decreases |chunks|
  {
    if chunks == [] then []
    else
      var n := if |chunks| < d then |chunks| else d;
      [chunks[..n]] + Groups(d, chunks[n..])
  }

  lemma OneGroup(d: nat, chunks: seq<Raw>)
    requires 0 < |chunks| <= d
    ensures Groups(d, chunks) == [chunks]
  {
    assert chunks[..|chunks|] == chunks && chunks[|chunks|..] == [];
  }

  lemma GroupsHead(d: nat, chunks: seq<Raw>)
    requires 0 < d <= |chunks|
    ensures Groups(d, chunks) == [chunks[..d]] + Groups(d, chunks[d..])
  {
  }

  lemma {:induction false} GroupsAppend(d: nat, a: seq<Raw>, b: seq<Raw>)
    requires d > 0 && Whole(d, a)
    ensures Groups(d, a + b) == Groups(d, a) + Groups(d, b)
    decreases |a|
  {
    if a == [] {
      assert a + b == b;
    } else {
      GroupsHead(d, a);
      GroupsHead(d, a + b);
      assert (a + b)[..d] == a[..d] && (a + b)[d..] == a[d..] + b;
      GroupsAppend(d, a[d..], b);
      var head, rest, more := [a[..d]], Groups(d, a[d..]), Groups(d, b);
      assert head + (rest + more) == (head + rest) + more;
    }
  }

  lemma {:induction false} WholeAppend(d: nat, a: seq<Raw>, b: seq<Raw>)
    requires d > 0 && Whole(d, a) && Whole(d, b)
    ensures Whole(d, a + b)
    decreases |a|
  {
    if a == [] {
      assert a + b == b;
    } else {
      WholeAppend(d, a[d..], b);
      assert (a + b)[d..] == a[d..] + b;
    }
  }

  lemma FullGroup(d: nat, chunks: seq<Raw>)
    requires |chunks| == d > 0
    ensures Whole(d, chunks)
  {
    assert chunks[d..] == [];
  }

  /** Where the last group starts. */
  lemma {:induction false} LastGroup(d: nat, chunks: seq<Raw>) returns (k: nat)
    requires d > 0 && chunks != []
    ensures k < |chunks| <= k + d && Whole(d, chunks[..k]) && Groups(d, chunks) == Groups(d, chunks[..k]) + [chunks[k..]]
    decreases |chunks|
  {
    if |chunks| <= d {
      k := 0;
      OneGroup(d, chunks);
      assert chunks[..0] == [] && chunks[0..] == chunks;
    } else {
      var rest := chunks[d..];
      var j := LastGroup(d, rest);
      k := d + j;
      assert chunks[..k] == chunks[..d] + rest[..j] && chunks[k..] == rest[j..];
      FullGroup(d, chunks[..d]);
      WholeAppend(d, chunks[..d], rest[..j]);
      GroupsAppend(d, chunks[..d], rest[..j]);
    }
  }

  /** The chunks coded in stripes, one per group. */
  function StripesOf(sha: Sha, code: Code, d: nat, p: nat, chunks: seq<Raw>): (stripes: seq<Stripe>)
    requires d > 0
    ensures |stripes| == |Groups(d, chunks)| && forall i :: 0 <= i < |stripes| ==> stripes[i] == StripeOf(sha, code, d, p, Groups(d, chunks)[i])
  {
    var groups := Groups(d, chunks);
    seq(|groups|, i requires 0 <= i < |groups| => StripeOf(sha, code, d, p, groups[i]))
  }

  lemma StripesAppend(sha: Sha, code: Code, d: nat, p: nat, a: seq<Raw>, b: seq<Raw>)
    requires d > 0 && Whole(d, a)
    ensures StripesOf(sha, code, d, p, a + b) == StripesOf(sha, code, d, p, a) + StripesOf(sha, code, d, p, b)
  {
    GroupsAppend(d, a, b);
  }

  lemma OneStripeOf(sha: Sha, code: Code, d: nat, p: nat, chunks: seq<Raw>)
    requires 0 < |chunks| <= d
    ensures StripesOf(sha, code, d, p, chunks) == [StripeOf(sha, code, d, p, chunks)]
  {
    OneGroup(d, chunks);
  }

  lemma LastStripe(sha: Sha, code: Code, d: nat, p: nat, chunks: seq<Raw>) returns (k: nat)
    requires d > 0 && chunks != []
    ensures k < |chunks| <= k + d && Whole(d, chunks[..k])
    ensures var all := StripesOf(sha, code, d, p, chunks);
            all != [] && all[..|all| - 1] == StripesOf(sha, code, d, p, chunks[..k]) && all[|all| - 1] == StripeOf(sha, code, d, p, chunks[k..])
  {
    k := LastGroup(d, chunks);
  }

  // --- layouts -------------------------------------------------------------------------------

  /** The chunk map that stores these chunks, in the mode and geometry of another. */
  function Encoded(sha: Sha, code: Code, mode: ChunkMap, chunks: seq<Raw>): ChunkMap
    requires mode.Ec? ==> mode.dataShards > 0
  {
    match mode
    case Replica(_) => Replica(RefsOf(sha, chunks))
    case Ec(d, p, _) => Ec(d, p, StripesOf(sha, code, d, p, chunks))
  }

  ghost predicate LaidOut(sha: Sha, code: Code, size: nat, m: ChunkMap, content: Raw) {
    && (m.Ec? ==> m.dataShards > 0)
    && exists chunks :: LaidAs(sha, code, size, m, content, chunks)
  }

  ghost predicate LaidAs(sha: Sha, code: Code, size: nat, m: ChunkMap, content: Raw, chunks: seq<Raw>)
    requires m.Ec? ==> m.dataShards > 0
  {
    IsChunking(size, chunks) && Concat(chunks) == content && m == Encoded(sha, code, m, chunks)
  }

  /** A layout that more chunks can follow: full chunks, in whole stripes. */
  ghost predicate OpenAs(sha: Sha, code: Code, size: nat, m: ChunkMap, content: Raw, chunks: seq<Raw>)
    requires m.Ec? ==> m.dataShards > 0
  {
    && AllFull(size, chunks) && Concat(chunks) == content && m == Encoded(sha, code, m, chunks)
    && (m.Ec? ==> Whole(m.dataShards, chunks))
  }

  ghost predicate Open(sha: Sha, code: Code, size: nat, m: ChunkMap, content: Raw) {
    && (m.Ec? ==> m.dataShards > 0)
    && exists chunks :: OpenAs(sha, code, size, m, content, chunks)
  }

  /** Two cuttings of one content into chunks of one size are the same. */
  lemma {:induction false} ChunkingUnique(size: nat, a: seq<Raw>, b: seq<Raw>)
    requires size > 0 && IsChunking(size, a) && IsChunking(size, b) && Concat(a) == Concat(b)
    ensures a == b
    decreases |a|
  {
    if a != [] { FirstChunk(size, a); }
    if b != [] { FirstChunk(size, b); }
    if a != [] && b != [] {
      assert a[0] == b[0];
      assert Concat(a[1..]) == Concat(a)[|a[0]|..] && Concat(b[1..]) == Concat(b)[|b[0]|..];
      ChunkingUnique(size, a[1..], b[1..]);
      assert a == [a[0]] + a[1..] && b == [b[0]] + b[1..];
    }
  }

  lemma FirstChunk(size: nat, chunks: seq<Raw>)
    requires IsChunking(size, chunks) && chunks != []
    ensures var all := Concat(chunks); |chunks[0]| == (if |all| < size then |all| else size) && all[..|chunks[0]|] == chunks[0]
  {
    if |chunks| == 1 { assert chunks == [chunks[0]]; ConcatOne(chunks[0]); }
  }

  /** A content has one layout in a given mode. */
  lemma LayoutUnique(sha: Sha, code: Code, size: nat, a: ChunkMap, b: ChunkMap, content: Raw)
    requires size > 0 && LaidOut(sha, code, size, a, content) && LaidOut(sha, code, size, b, content)
    requires a.Replica? == b.Replica? && (a.Ec? ==> b.dataShards == a.dataShards && b.parityShards == a.parityShards)
    ensures a == b
  {
    var p :| LaidAs(sha, code, size, a, content, p);
    var q :| LaidAs(sha, code, size, b, content, q);
    ChunkingUnique(size, p, q);
  }

  // --- extending -----------------------------------------------------------------------------------

  function Grown(sha: Sha, code: Code, m: ChunkMap, more: seq<Raw>): ChunkMap
    requires m.Ec? ==> m.dataShards > 0
  {
    match m
    case Replica(refs) => Replica(refs + RefsOf(sha, more))
    case Ec(d, p, stripes) => Ec(d, p, stripes + StripesOf(sha, code, d, p, more))
  }

  /** More chunks after an open layout give the layout of everything. */
  lemma ExtendsLayout(sha: Sha, code: Code, size: nat, m: ChunkMap, before: Raw, was: seq<Raw>, more: seq<Raw>, grown: ChunkMap)
    requires size > 0 && (m.Ec? ==> m.dataShards > 0) && OpenAs(sha, code, size, m, before, was) && IsChunking(size, more)
    requires grown == Grown(sha, code, m, more)
    ensures LaidAs(sha, code, size, grown, before + Concat(more), was + more)
  {
    ConcatAppend(was, more);
    ChunkingGrows(size, was, more);
    EncodedGrows(sha, code, m, was, more);
  }

  lemma EncodedGrows(sha: Sha, code: Code, m: ChunkMap, was: seq<Raw>, more: seq<Raw>)
    requires (m.Ec? ==> m.dataShards > 0 && Whole(m.dataShards, was)) && m == Encoded(sha, code, m, was)
    ensures Grown(sha, code, m, more) == Encoded(sha, code, m, was + more)
  {
    match m
    case Replica(refs) => assert RefsOf(sha, was + more) == RefsOf(sha, was) + RefsOf(sha, more);
    case Ec(d, p, stripes) => StripesAppend(sha, code, d, p, was, more);
  }

  lemma ChunkingGrows(size: nat, was: seq<Raw>, more: seq<Raw>)
    requires size > 0 && AllFull(size, was) && IsChunking(size, more)
    ensures IsChunking(size, was + more)
  {
  }

  lemma {:induction false} ConcatBound(size: nat, chunks: seq<Raw>)
    requires forall i :: 0 <= i < |chunks| ==> |chunks[i]| <= size
    ensures |Concat(chunks)| <= |chunks| * size
    ensures |Concat(chunks)| == |chunks| * size ==> AllFull(size, chunks)
    decreases |chunks|
  {
    if chunks != [] {
      ConcatBound(size, chunks[1..]);
      assert |chunks| * size == (|chunks| - 1) * size + size;
      if |Concat(chunks)| == |chunks| * size {
        forall i | 0 <= i < |chunks| ensures |chunks[i]| == size { if i > 0 { assert chunks[i] == chunks[1..][i - 1]; } }
      }
    }
  }

  /** A stripe as long as d full chunks is d full chunks. */
  lemma FullStripe(size: nat, d: nat, chunks: seq<Raw>)
    requires size > 0 && |chunks| <= d && (forall i :: 0 <= i < |chunks| ==> |chunks[i]| <= size) && |Concat(chunks)| >= d * size
    ensures |chunks| == d && AllFull(size, chunks)
  {
    ConcatBound(size, chunks);
    OneMore(|chunks|, d, size);
  }

  lemma OneMore(x: nat, y: nat, size: nat)
    ensures x < y ==> x * size + size <= y * size
  {
    if x < y { assert (x + 1) * size <= y * size; }
  }

  // --- taking the tail off ------------------------------------------------------------------------------

  lemma {:induction false} ConcatSplit(chunks: seq<Raw>, k: nat)
    requires k <= |chunks|
    ensures Concat(chunks) == Concat(chunks[..k]) + Concat(chunks[k..])
  {
    assert chunks == chunks[..k] + chunks[k..];
    ConcatAppend(chunks[..k], chunks[k..]);
  }

  lemma SameLengths(a: Raw, b: Raw, x: Raw, y: Raw)
    requires a + b == x + y && |b| == |y|
    ensures a == x
  {
    assert a == (a + b)[..|a|] && x == (x + y)[..|x|];
  }

  /** Without its last chunk a layout is open. */
  lemma ShortChunkOff(sha: Sha, code: Code, size: nat, refs: seq<Ref>, content: Raw, before: Raw, tail: Raw)
    requires refs != [] && LaidOut(sha, code, size, Replica(refs), content)
    requires before + tail == content && |tail| == refs[|refs| - 1].size
    ensures Open(sha, code, size, Replica(refs[..|refs| - 1]), before)
  {
    var chunks :| LaidAs(sha, code, size, Replica(refs), content, chunks);
    var k := |chunks| - 1;
    ConcatSplit(chunks, k);
    assert chunks[k..] == [chunks[k]];
    ConcatOne(chunks[k]);
    SameLengths(before, tail, Concat(chunks[..k]), chunks[k]);
    assert RefsOf(sha, chunks[..k]) == refs[..k];
    assert OpenAs(sha, code, size, Replica(refs[..k]), before, chunks[..k]);
  }

  /** A layout whose last chunk is full is open. */
  lemma FullChunkStays(sha: Sha, code: Code, size: nat, refs: seq<Ref>, content: Raw)
    requires LaidOut(sha, code, size, Replica(refs), content) && (refs != [] ==> refs[|refs| - 1].size >= size)
    ensures Open(sha, code, size, Replica(refs), content)
  {
    var chunks :| LaidAs(sha, code, size, Replica(refs), content, chunks);
    assert OpenAs(sha, code, size, Replica(refs), content, chunks);
  }

  lemma ShortStripeOff(sha: Sha, code: Code, size: nat, d: nat, p: nat, stripes: seq<Stripe>, content: Raw, before: Raw, tail: Raw)
    requires d > 0 && stripes != [] && LaidOut(sha, code, size, Ec(d, p, stripes), content)
    requires before + tail == content && |tail| == stripes[|stripes| - 1].dataLen
    ensures Open(sha, code, size, Ec(d, p, stripes[..|stripes| - 1]), before)
  {
    var chunks :| LaidAs(sha, code, size, Ec(d, p, stripes), content, chunks);
    var k := LastStripe(sha, code, d, p, chunks);
    CutBefore(chunks, k, before, tail);
    assert OpenAs(sha, code, size, Ec(d, p, stripes[..|stripes| - 1]), before, chunks[..k]);
  }

  lemma CutBefore(chunks: seq<Raw>, k: nat, before: Raw, tail: Raw)
    requires k <= |chunks| && before + tail == Concat(chunks) && |tail| == |Concat(chunks[k..])|
    ensures before == Concat(chunks[..k])
  {
    ConcatSplit(chunks, k);
    SameLengths(before, tail, Concat(chunks[..k]), Concat(chunks[k..]));
  }

  lemma FullStripeStays(sha: Sha, code: Code, size: nat, d: nat, p: nat, stripes: seq<Stripe>, content: Raw)
    requires size > 0 && d > 0 && LaidOut(sha, code, size, Ec(d, p, stripes), content)
    requires stripes != [] ==> stripes[|stripes| - 1].dataLen >= d * size
    ensures Open(sha, code, size, Ec(d, p, stripes), content)
  {
    var chunks :| LaidAs(sha, code, size, Ec(d, p, stripes), content, chunks);
    if chunks != [] {
      var k := LastStripe(sha, code, d, p, chunks);
      FullTail(size, d, chunks, k);
    }
    assert OpenAs(sha, code, size, Ec(d, p, stripes), content, chunks);
  }

  /** If the last stripe holds d full chunks, everything is full. */
  lemma FullTail(size: nat, d: nat, chunks: seq<Raw>, k: nat)
    requires size > 0 && d > 0 && IsChunking(size, chunks) && k < |chunks| <= k + d && Whole(d, chunks[..k])
    requires |Concat(chunks[k..])| >= d * size
    ensures AllFull(size, chunks) && Whole(d, chunks)
  {
    FullStripe(size, d, chunks[k..]);
    assert chunks[|chunks| - 1] == chunks[k..][d - 1];
    FullGroup(d, chunks[k..]);
    WholeAppend(d, chunks[..k], chunks[k..]);
    assert chunks == chunks[..k] + chunks[k..];
  }
}
