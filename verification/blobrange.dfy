/**
 Ranged reads: the clamped slice of the content, fetching only the chunks or
 stripes the window meets, and the one case in which 64-bit arithmetic makes
 the read come back empty instead.
 */
module BlobRange {
  import opened Bytes
  import opened Layout
  import opened Blob
  import opened BlobRead

  const MAX_INT64: int := 0x7FFF_FFFF_FFFF_FFFF

  predicate Int64(x: int) {
    -MAX_INT64 - 1 <= x <= MAX_INT64
  }

  /** Two's-complement addition. */
  function Add64(a: int, b: int): (c: int)
    requires Int64(a) && Int64(b)
    ensures Int64(c)
  {
    if a + b > MAX_INT64 then a + b - 2 * MAX_INT64 - 2
    else if a + b < -MAX_INT64 - 1 then a + b + 2 * MAX_INT64 + 2
    else a + b
  }

  function Min(a: int, b: int): int {
    if a < b then a else b
  }

  function Max(a: int, b: int): int {
    if a < b then b else a
  }

  /** The bytes of x whose positions lie in [lo, hi). */
  function Clip(x: Raw, lo: int, hi: int): Raw {
    var from := Min(Max(lo, 0), |x|);
    x[from..Max(from, Min(hi, |x|))]
  }

  /** Clipping a concatenation clips its parts. */
  lemma ClipAppend(x: Raw, y: Raw, lo: int, hi: int)
    requires 0 <= lo
    ensures Clip(x + y, lo, hi) == Clip(x, lo, hi) + Clip(y, lo - |x|, hi - |x|)
  {
    var a, b := Clip(x, lo, hi), Clip(y, lo - |x|, hi - |x|);
    var all := Clip(x + y, lo, hi);
    assert |all| == |a| + |b|;
    forall i | 0 <= i < |all| ensures all[i] == (a + b)[i] { }
  }

  // --- the window cut of a stripe -----------------------------------------------------------

  /** Forwards only the bytes whose stream positions fall in [lo, hi). */
  class SliceWriter {
    const lo: nat
    const hi: nat
    var pos: nat
    var sink: Raw
    ghost var stream: Raw

    ghost predicate Valid()
      reads this
    {
      pos == |stream| && sink == Clip(stream, lo, hi)
    }

    constructor (lo: nat, hi: nat)
      ensures Valid() && stream == [] && this.lo == lo && this.hi == hi
    {
      this.lo, this.hi, pos, sink, stream := lo, hi, 0, [], [];
    }

    method Write(p: Raw)
      requires Valid()
      modifies this
      ensures Valid() && stream == old(stream) + p
    {
      var start, end := pos, pos + |p|;
      pos := end;
      var cutLo, cutHi := Max(start, lo), Min(end, hi);
      ClipAppend(stream, p, lo, hi);
      stream := stream + p;
      if cutLo < cutHi {
        assert p[cutLo - start..cutHi - start] == Clip(p, lo - start, hi - start);
        sink := sink + p[cutLo - start..cutHi - start];
      }
    }
  }

  // --- the window over units ---------------------------------------------------------------------

  /** Where a unit starts in the content. */
  function StartOf(units: seq<Raw>, i: nat): nat
    requires i <= |units|
  {
    |Concat(units[..i])|
  }

  lemma StartStep(units: seq<Raw>, i: nat)
    requires i < |units|
    ensures StartOf(units, i + 1) == StartOf(units, i) + |units[i]|
    ensures Concat(units[..i + 1]) == Concat(units[..i]) + units[i]
  {
    ConcatStep(units, i);
  }

  /** The unit overlaps the window. */
  predicate Meets(units: seq<Raw>, i: nat, offset: int, end: int)
    requires i < |units|
  {
    StartOf(units, i) + |units[i]| > offset && StartOf(units, i) < end
  }

  lemma {:induction false} StartsGrow(units: seq<Raw>, i: nat, j: nat)
    requires i <= j <= |units|
    ensures StartOf(units, i) <= StartOf(units, j)
    decreases j - i
  {
    if i < j {
      StartsGrow(units, i, j - 1);
      StartStep(units, j - 1);
    }
  }

  lemma PastTheEnd(units: seq<Raw>, i: nat, offset: int, end: int)
    requires i <= |units| && StartOf(units, i) >= end && 0 <= offset
    ensures forall j :: i <= j < |units| ==> !Meets(units, j, offset, end)
    ensures Clip(Concat(units[..i]), offset, end) == Clip(Concat(units), offset, end)
  {
    forall j | i <= j < |units| ensures !Meets(units, j, offset, end) { StartsGrow(units, i, j); }
    assert units == units[..i] + units[i..];
    ConcatAppend(units[..i], units[i..]);
    ClipAppend(Concat(units[..i]), Concat(units[i..]), offset, end);
    assert Clip(Concat(units[i..]), offset - StartOf(units, i), end - StartOf(units, i)) == [];
  }

  lemma ClipStep(units: seq<Raw>, i: nat, offset: int, end: int)
    requires i < |units| && 0 <= offset
    ensures Clip(Concat(units[..i + 1]), offset, end) ==
            Clip(Concat(units[..i]), offset, end) + Clip(units[i], offset - StartOf(units, i), end - StartOf(units, i))
    ensures !Meets(units, i, offset, end) ==> Clip(units[i], offset - StartOf(units, i), end - StartOf(units, i)) == []
  {
    StartStep(units, i);
    ClipAppend(Concat(units[..i]), units[i], offset, end);
  }

  /** Every unit before `upto` that the window meets can be had. */
  ghost predicate Served(units: seq<Raw>, have: seq<bool>, upto: nat, offset: int, end: int) {
    |have| == |units| && upto <= |units| && forall i :: 0 <= i < upto && Meets(units, i, offset, end) ==> have[i]
  }

  /** The loop's progress: everything before unit i is dealt with. */
  ghost predicate At(units: seq<Raw>, have: seq<bool>, i: nat, pos: int, out: Raw, offset: int, end: int) {
    && i <= |units| && pos == StartOf(units, i) && out == Clip(Concat(units[..i]), offset, end)
    && Served(units, have, i, offset, end)
  }

  /** What a window over units comes to: its bytes if every unit it meets is there. */
  ghost function Windowed(units: seq<Raw>, have: seq<bool>, offset: int, end: int): Out {
    if Served(units, have, |units|, offset, end) then Ok(Clip(Concat(units), offset, end)) else Fail
  }

  lemma StartUnits(units: seq<Raw>, have: seq<bool>, offset: int, end: int)
    requires |have| == |units|
    ensures At(units, have, 0, 0, [], offset, end)
  {
    assert units[..0] == [];
  }

  lemma SkipUnit(units: seq<Raw>, have: seq<bool>, i: nat, pos: int, out: Raw, offset: int, end: int)
    requires At(units, have, i, pos, out, offset, end) && 0 <= offset && i < |units| && pos + |units[i]| <= offset
    ensures At(units, have, i + 1, pos + |units[i]|, out, offset, end)
  {
    ClipStep(units, i, offset, end);
    StartStep(units, i);
  }

  lemma TakeUnit(units: seq<Raw>, have: seq<bool>, i: nat, pos: int, out: Raw, offset: int, end: int, lo: int, hi: int)
    requires At(units, have, i, pos, out, offset, end) && 0 <= offset && (end < 0 || offset < end)
    requires i < |units| && offset < pos + |units[i]| && pos < end
    requires lo == Max(0, offset - pos) && hi == Min(|units[i]|, end - pos)
    ensures 0 <= lo <= hi <= |units[i]| && Clip(units[i], lo, hi) == units[i][lo..hi]
    ensures have[i] ==> At(units, have, i + 1, pos + |units[i]|, out + units[i][lo..hi], offset, end)
    ensures !have[i] ==> Windowed(units, have, offset, end) == Fail
  {
    ClipStep(units, i, offset, end);
    StartStep(units, i);
    assert Meets(units, i, offset, end);
    assert Clip(units[i], offset - pos, end - pos) == units[i][lo..hi];
  }

  lemma StopUnits(units: seq<Raw>, have: seq<bool>, i: nat, pos: int, out: Raw, offset: int, end: int)
    requires At(units, have, i, pos, out, offset, end) && 0 <= offset && (i == |units| || pos >= end)
    ensures Windowed(units, have, offset, end) == Ok(out)
  {
    if i == |units| {
      assert units[..i] == units;
    } else {
      PastTheEnd(units, i, offset, end);
    }
  }

  // --- units a manifest can still serve ---------------------------------------------------------------

  function UnitCount(m: ChunkMap): nat {
    match m
    case Replica(chunks) => |chunks|
    case Ec(_, _, stripes) => |stripes|
  }

  function UnitSize(m: ChunkMap, i: nat): nat
    requires i < UnitCount(m)
  {
    match m
    case Replica(chunks) => chunks[i].size
    case Ec(_, _, stripes) => stripes[i].dataLen
  }

  /** Where a unit starts, by the manifest's sizes alone. */
  function UnitStart(m: ChunkMap, i: nat): nat
    requires i <= UnitCount(m)
  {
    if i == 0 then 0 else UnitStart(m, i - 1) + UnitSize(m, i - 1)
  }

  predicate Fetchable(fetch: Digest -> Option<Raw>, m: ChunkMap, i: nat)
    requires i < UnitCount(m)
  {
    match m
    case Replica(chunks) => fetch(chunks[i].hash).Some?
    case Ec(d, _, stripes) => Enough(fetch, d, stripes[i])
  }

  function Have(fetch: Digest -> Option<Raw>, m: ChunkMap): (have: seq<bool>)
    ensures |have| == UnitCount(m) && forall i :: 0 <= i < |have| ==> have[i] == Fetchable(fetch, m, i)
  {
    seq(UnitCount(m), i requires 0 <= i < UnitCount(m) => Fetchable(fetch, m, i))
  }

  /** The replica loop: only chunks the window meets are fetched or needed. */
  method RangeChunks(fetch: Digest -> Option<Raw>, refs: seq<Ref>, offset: nat, end: int, ghost pieces: seq<Raw>) returns (r: Out)
    requires Exact(fetch, refs, pieces) && (end < 0 || offset < end)
    requires forall i :: 0 <= i < |refs| ==> refs[i].size == |pieces[i]|
    ensures r == Windowed(pieces, Have(fetch, Replica(refs)), offset, end)
  {
    var out, pos, i := [], 0, 0;
    ghost var have := Have(fetch, Replica(refs));
    StartUnits(pieces, have, offset, end);
    while i < |refs|
      invariant At(pieces, have, i, pos, out, offset, end)
    {
      var next := pos + refs[i].size;
      if next <= offset {
        SkipUnit(pieces, have, i, pos, out, offset, end);
        pos, i := next, i + 1;
        continue;
      }
      if pos >= end { break; }
      var lo, hi := 0, refs[i].size;
      if offset > pos { lo := offset - pos; }
      if end < next { hi := end - pos; }
      TakeUnit(pieces, have, i, pos, out, offset, end, lo, hi);
      var data := fetch(refs[i].hash);
      if data.None? { return Fail; }
      out := out + data.value[lo..hi];
      pos, i := next, i + 1;
    }
    StopUnits(pieces, have, i, pos, out, offset, end);
    r := Ok(out);
  }

  /** One stripe's bytes through the window's writer. */
  method CutSpan(bytes: Raw, lo: nat, hi: nat) returns (cut: Raw)
    ensures cut == Clip(bytes, lo, hi)
  {
    var window := new SliceWriter(lo, hi);
    window.Write(bytes);
    assert [] + bytes == bytes;
    cut := window.sink;
  }

  /** The stripe loop: only stripes the window meets are gathered or needed. */
  method RangeStripes(sha: Sha, code: Code, fetch: Digest -> Option<Raw>, d: nat, p: nat, stripes: seq<Stripe>, offset: nat, end: int, ghost spans: seq<Raw>)
    returns (r: Out)
    requires ShaOk(sha) && CodeOk(code) && Honest(sha, fetch) && HoldsSpans(sha, code, d, p, stripes, spans) && (end < 0 || offset < end)
    requires forall i :: 0 <= i < |stripes| ==> stripes[i].dataLen == |spans[i]|
    ensures r == Windowed(spans, Have(fetch, Ec(d, p, stripes)), offset, end)
  {
    var out, pos, i := [], 0, 0;
    ghost var have := Have(fetch, Ec(d, p, stripes));
    StartUnits(spans, have, offset, end);
    while i < |stripes|
      invariant At(spans, have, i, pos, out, offset, end)
    {
      var next := pos + stripes[i].dataLen;
      if next <= offset {
        SkipUnit(spans, have, i, pos, out, offset, end);
        pos, i := next, i + 1;
        continue;
      }
      if pos >= end { break; }
      var lo, hi := 0, stripes[i].dataLen;
      if offset > pos { lo := offset - pos; }
      if end < next { hi := end - pos; }
      TakeUnit(spans, have, i, pos, out, offset, end, lo, hi);
      assert IsStripe(sha, code, d, p, stripes[i], spans[i]);
      var data := ReadStripe(sha, code, fetch, d, p, stripes[i], spans[i]);
      if data.Fail? { return Fail; }
      var cut := CutSpan(data.bytes, lo, hi);
      out := out + cut;
      pos, i := next, i + 1;
    }
    StopUnits(spans, have, i, pos, out, offset, end);
    r := Ok(out);
  }

  // --- ReadRange ------------------------------------------------------------------------------------

  /** offset + length does not fit in 64 bits. */
  predicate Overflows(size: int, offset: int, length: int) {
    0 <= offset < size && length > 0 && offset + length > MAX_INT64
  }

  /** The end of the window a caller asks for. */
  function WindowEnd(size: int, offset: int, length: int): int {
    if length < 0 || offset + length > size then size else offset + length
  }

  /** Every unit that overlaps the window, and no other, can be fetched. */
  predicate WindowReadable(fetch: Digest -> Option<Raw>, m: ChunkMap, offset: int, end: int) {
    forall i :: 0 <= i < UnitCount(m) && offset < UnitStart(m, i) + UnitSize(m, i) && UnitStart(m, i) < end && offset < end ==> Fetchable(fetch, m, i)
  }

  /** The outcome of a ranged read, from the manifest, the content and what can be fetched. */
  ghost function Ranged(fetch: Digest -> Option<Raw>, m: Manifest, content: Raw, offset: int, length: int): Out {
    var end := WindowEnd(m.size, offset, length);
    if offset < 0 then Fail
    else if Overflows(m.size, offset, length) then Ok([])
    else if WindowReadable(fetch, m.chunkMap, offset, end) then Ok(Clip(content, offset, end))
    else Fail
  }

  lemma {:induction false} UnitStarts(m: ChunkMap, units: seq<Raw>, i: nat)
    requires UnitCount(m) == |units| && (forall j :: 0 <= j < |units| ==> UnitSize(m, j) == |units[j]|) && i <= |units|
    ensures UnitStart(m, i) == StartOf(units, i)
  {
    if i > 0 {
      UnitStarts(m, units, i - 1);
      StartStep(units, i - 1);
    }
  }

  lemma ServedIsReadable(fetch: Digest -> Option<Raw>, m: ChunkMap, units: seq<Raw>, offset: int, end: int)
    requires UnitCount(m) == |units| && (forall j :: 0 <= j < |units| ==> UnitSize(m, j) == |units[j]|) && offset < end
    ensures Served(units, Have(fetch, m), |units|, offset, end) <==> WindowReadable(fetch, m, offset, end)
  {
    forall i | 0 <= i < |units|
      ensures Meets(units, i, offset, end) <==> offset < UnitStart(m, i) + UnitSize(m, i) && UnitStart(m, i) < end
    {
      UnitStarts(m, units, i);
    }
  }

  /** An end that wrapped around is below every position: no unit is met. */
  lemma WrappedWindow(units: seq<Raw>, have: seq<bool>, offset: int, end: int)
    requires |have| == |units| && end < 0 <= offset
    ensures Windowed(units, have, offset, end) == Ok([])
  {
  }

  lemma {:induction false} PastTheLast(m: ChunkMap, units: seq<Raw>, i: nat)
    requires UnitCount(m) == |units| && (forall j :: 0 <= j < |units| ==> UnitSize(m, j) == |units[j]|) && i < |units|
    ensures UnitStart(m, i) + UnitSize(m, i) <= |Concat(units)|
  {
    UnitStarts(m, units, i);
    StartStep(units, i);
    StartsGrow(units, i + 1, |units|);
    assert units[..|units|] == units;
  }

  /** At or past the end, or for no bytes, nothing is read. */
  lemma EmptyWindow(fetch: Digest -> Option<Raw>, m: ChunkMap, units: seq<Raw>, offset: int, end: int)
    requires UnitCount(m) == |units| && (forall j :: 0 <= j < |units| ==> UnitSize(m, j) == |units[j]|)
    requires 0 <= offset && (offset >= |Concat(units)| || end <= offset)
    ensures WindowReadable(fetch, m, offset, end) && Clip(Concat(units), offset, end) == []
  {
    forall i | 0 <= i < |units| ensures UnitStart(m, i) + UnitSize(m, i) <= |Concat(units)| { PastTheLast(m, units, i); }
  }

  /** The pieces behind a chunk map: one per unit, of its recorded size. */
  ghost predicate UnitsOf(sha: Sha, code: Code, m: ChunkMap, units: seq<Raw>) {
    match m
    case Replica(chunks) => chunks == RefsOf(sha, units)
    case Ec(d, p, stripes) => HoldsSpans(sha, code, d, p, stripes, units)
  }

  lemma UnitSizes(sha: Sha, code: Code, m: ChunkMap, units: seq<Raw>)
    requires UnitsOf(sha, code, m, units)
    ensures UnitCount(m) == |units| && forall j :: 0 <= j < |units| ==> UnitSize(m, j) == |units[j]|
  {
    if m.Ec? { SpanLengths(sha, code, m.dataShards, m.parityShards, m.stripes, units); }
  }

  lemma UnitsExist(sha: Sha, code: Code, m: ChunkMap, content: Raw) returns (units: seq<Raw>)
    requires Stores(sha, code, m, content)
    ensures UnitsOf(sha, code, m, units) && Concat(units) == content
  {
    match m
    case Replica(chunks) => units :| chunks == RefsOf(sha, units) && Concat(units) == content;
    case Ec(d, p, stripes) => units :| HoldsSpans(sha, code, d, p, stripes, units) && Concat(units) == content;
  }

  /** The loop over units in the manifest's mode. */
  method RangeUnits(sha: Sha, code: Code, fetch: Digest -> Option<Raw>, m: ChunkMap, offset: nat, end: int, ghost units: seq<Raw>) returns (r: Out)
    requires ShaOk(sha) && CodeOk(code) && Honest(sha, fetch) && UnitsOf(sha, code, m, units) && (end < 0 || offset < end)
    ensures r == Windowed(units, Have(fetch, m), offset, end)
  {
    UnitSizes(sha, code, m, units);
    match m
    case Replica(chunks) =>
      RefsAreExact(sha, fetch, units);
      r := RangeChunks(fetch, chunks, offset, end, units);
    case Ec(d, p, stripes) =>
      SpanLengths(sha, code, d, p, stripes, units);
      r := RangeStripes(sha, code, fetch, d, p, stripes, offset, end, units);
  }

  /**
   A ranged read is the clamped slice of the content exactly when every unit
   its window meets can be fetched, whatever became of the others, and fails
   otherwise; if offset + length overflows it returns nothing.
   */
  method ReadRange(sha: Sha, code: Code, fetch: Digest -> Option<Raw>, m: Manifest, offset: int, length: int, ghost content: Raw)
    returns (r: Out)
    requires ShaOk(sha) && CodeOk(code) && Honest(sha, fetch) && Stores(sha, code, m.chunkMap, content)
    requires m.size == |content| <= MAX_INT64 && Int64(offset) && Int64(length)
    ensures r == Ranged(fetch, m, content, offset, length)
  {
    if offset < 0 { return Fail; }
    ghost var units := UnitsExist(sha, code, m.chunkMap, content);
    UnitSizes(sha, code, m.chunkMap, units);
    var len := length;
    if len < 0 || Add64(offset, len) > m.size { len := m.size - offset; }
    if offset >= m.size || len <= 0 {
      EmptyWindow(fetch, m.chunkMap, units, offset, WindowEnd(m.size, offset, length));
      return Ok([]);
    }
    var end := Add64(offset, len);
    r := RangeUnits(sha, code, fetch, m.chunkMap, offset, end, units);
    if end < 0 {
      WrappedWindow(units, Have(fetch, m.chunkMap), offset, end);
    } else {
      ServedIsReadable(fetch, m.chunkMap, units, offset, end);
    }
  }

  /** When the content is readable, the read is the clamped slice if and only if nothing overflows. */
  lemma RangeIsSliceIff(fetch: Digest -> Option<Raw>, m: Manifest, content: Raw, offset: int, length: int)
    requires m.size == |content| && offset >= 0 && WindowReadable(fetch, m.chunkMap, offset, WindowEnd(m.size, offset, length))
    ensures Ranged(fetch, m, content, offset, length) == Ok(Clip(content, offset, WindowEnd(m.size, offset, length))) <==>
            !Overflows(m.size, offset, length)
  {
  }

  /** Reading a whole readable blob in part never fails. */
  lemma ReadableRange(fetch: Digest -> Option<Raw>, m: ChunkMap, offset: int, end: int)
    requires CanRead(fetch, m)
    ensures WindowReadable(fetch, m, offset, end)
  {
  }

  /** Two stored bytes, all copies there, the second asked for: nothing comes back. */
  lemma OverflowLosesAByte(sha: Sha, fetch: Digest -> Option<Raw>, m: Manifest)
    requires m.size == 2 && m.chunkMap == Replica([Ref(Hash(sha, [7, 8]), 2)]) && fetch(Hash(sha, [7, 8])) == Some([7, 8])
    ensures Ranged(fetch, m, [7, 8], 1, MAX_INT64) == Ok([])
    ensures Ranged(fetch, m, [7, 8], 1, 1) == Ok([8]) && Clip([7, 8], 1, WindowEnd(2, 1, MAX_INT64)) == [8]
  {
    assert [7, 8][1..2] == [8];
    assert CanRead(fetch, m.chunkMap);
    ReadableRange(fetch, m.chunkMap, 1, 2);
  }

  lemma SpanLengths(sha: Sha, code: Code, d: nat, p: nat, stripes: seq<Stripe>, spans: seq<Raw>)
    requires HoldsSpans(sha, code, d, p, stripes, spans)
    ensures forall i :: 0 <= i < |stripes| ==> stripes[i].dataLen == |spans[i]|
  {
    forall i | 0 <= i < |stripes| ensures stripes[i].dataLen == |spans[i]| { assert IsStripe(sha, code, d, p, stripes[i], spans[i]); }
  }
}
