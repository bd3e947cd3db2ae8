/**
 The Pebble key layout of one group: big-endian counters, history keys
 `<key> NUL <rev>`, and the bounds of prefix scans.
 */
module Layout {
  import opened Bytes

  datatype Option<+T> = None | Some(value: T)

  const U64_LIMIT: nat := 0x1_0000_0000_0000_0000

  // --- big-endian counters ----------------------------------------------------

  /** `n` in `width` bytes, most significant first. */
  function BigEndian(n: nat, width: nat): (b: Key)
    ensures |b| == width
  {
    if width == 0 then [] else BigEndian(n / 256, width - 1) + [n % 256]
  }

  function Pow256(width: nat): (p: nat)
    ensures p > 0
  {
    if width == 0 then 1 else 256 * Pow256(width - 1)
  }

  /** The `n = n<<8 | b` loop that reads a counter back. */
  method ReadBigEndian(b: Key) returns (n: nat)
    ensures n == FromBigEndian(b)
  {
    n := 0;
    for i := 0 to |b|
      invariant n == FromBigEndian(b[..i])
    {
      assert b[..i + 1][..i] == b[..i];
      n := n * 256 + b[i];
    }
    assert b[..|b|] == b;
  }

  function FromBigEndian(b: Key): (n: nat)
    ensures n < Pow256(|b|)
    decreases |b|
  {
    if b == [] then 0 else FromBigEndian(b[..|b| - 1]) * 256 + b[|b| - 1]
  }

  lemma {:induction false} BigEndianRoundTrip(n: nat, width: nat)
    requires n < Pow256(width)
    ensures FromBigEndian(BigEndian(n, width)) == n
  {
    if width > 0 {
      var high, b := BigEndian(n / 256, width - 1), BigEndian(n, width);
      BigEndianRoundTrip(n / 256, width - 1);
      assert b[..|b| - 1] == high && b[|b| - 1] == n % 256;
      assert FromBigEndian(b) == FromBigEndian(high) * 256 + n % 256;
    }
  }

  lemma MultipleAtLeast(a: int, len: nat)
    requires a >= 1
    ensures a * len >= len
  {
    assert a * len == (a - 1) * len + len;
  }

  lemma SmallMultiple(a: int, len: nat, d: int)
    requires a * len == d && 0 - len < d < len
    ensures a == 0
  {
    assert (-a) * len == -d;
    if a >= 1 { MultipleAtLeast(a, len); }
    if a <= -1 { MultipleAtLeast(-a, len); }
  }

  /** Taking the modulus off once does not change a remainder. */
  lemma ModStep(n: nat, len: nat)
    requires 0 < len <= n
    ensures (n - len) % len == n % len
  {
    var a, b := n / len, (n - len) / len;
    var r, s := n % len, (n - len) % len;
    assert n == a * len + r && n - len == b * len + s;
    assert (a - b - 1) * len == a * len - b * len - len;
    SmallMultiple(a - b - 1, len, s - r);
  }

  lemma {:induction false} LessExtends(a: Key, b: Key, x: Key, y: Key)
    requires |a| == |b| && Less(a, b)
    ensures Less(a + x, b + y)
    decreases |a|
  {
    if a[0] == b[0] {
      LessExtends(a[1..], b[1..], x, y);
    }
    assert (a + x)[1..] == a[1..] + x && (b + y)[1..] == b[1..] + y;
  }

  /** Big-endian bytes sort like the numbers they encode. */
  lemma {:induction false} BigEndianMonotone(n: nat, m: nat, width: nat)
    requires n < m < Pow256(width)
    ensures Less(BigEndian(n, width), BigEndian(m, width))
  {
    if width > 0 {
      var hi, hi' := BigEndian(n / 256, width - 1), BigEndian(m / 256, width - 1);
      if n / 256 < m / 256 {
        BigEndianMonotone(n / 256, m / 256, width - 1);
        LessExtends(hi, hi', [n % 256], [m % 256]);
      } else {
        LessAfterPrefix(hi, [n % 256], [m % 256]);
      }
    }
  }

  lemma U64Width()
    ensures Pow256(8) == U64_LIMIT
  {
    assert Pow256(2) == 0x1_0000;
    assert Pow256(4) == 0x1_0000_0000;
    assert Pow256(6) == 0x1_0000_0000_0000;
  }

  // --- history keys -----------------------------------------------------------

  /** One archived version: a user key and the revision it was written at. */
  datatype Version = Version(key: Key, rev: nat)

  predicate NulFree(k: Key) {
    0 !in k
  }

  /** The history key of a version, below the group's history prefix. */
  function HistKey(v: Version): Key {
    v.key + [0] + BigEndian(v.rev, 8)
  }

  /** What the scans read back out of a raw history key. */
  function ParseHistKey(raw: Key): Option<Version> {
    if |raw| < 9 || raw[|raw| - 9] != 0 then None
    else Some(Version(raw[..|raw| - 9], FromBigEndian(raw[|raw| - 8..])))
  }

  lemma ParseHistKeyRoundTrip(v: Version)
    requires v.rev < U64_LIMIT
    ensures ParseHistKey(HistKey(v)) == Some(v)
  {
    U64Width();
    BigEndianRoundTrip(v.rev, 8);
    var raw := HistKey(v);
    assert raw[..|raw| - 9] == v.key;
    assert raw[|raw| - 8..] == BigEndian(v.rev, 8);
  }

  /** Versions in the order the history namespace must present them. */
  predicate Before(v: Version, w: Version) {
    Less(v.key, w.key) || (v.key == w.key && v.rev < w.rev)
  }

  /**
   For keys without NUL bytes the raw byte order of history keys is exactly
   "by user key, then by revision": one key's versions are adjacent and
   ordered oldest to newest.
   */
  lemma {:induction false} HistKeyOrder(v: Version, w: Version)
    requires NulFree(v.key) && NulFree(w.key)
    requires v.rev < U64_LIMIT && w.rev < U64_LIMIT
    ensures Less(HistKey(v), HistKey(w)) <==> Before(v, w)
    decreases |v.key|
  {
    var a, b := HistKey(v), HistKey(w);
    if v.key == [] && w.key == [] {
      RevisionOrder(v.rev, w.rev);
      assert a == [0] + BigEndian(v.rev, 8) && b == [0] + BigEndian(w.rev, 8);
      LessAfterPrefix([0], BigEndian(v.rev, 8), BigEndian(w.rev, 8));
    } else if v.key == [] {
      assert w.key[0] in w.key && b[0] == w.key[0] && a[0] == 0;
    } else if w.key == [] {
      assert v.key[0] in v.key && a[0] == v.key[0] && b[0] == 0;
    } else {
      assert a[0] == v.key[0] && b[0] == w.key[0];
      var v', w' := Version(v.key[1..], v.rev), Version(w.key[1..], w.rev);
      assert a[1..] == HistKey(v') && b[1..] == HistKey(w');
      HistKeyOrder(v', w');
      assert v.key == [v.key[0]] + v'.key && w.key == [w.key[0]] + w'.key;
    }
  }

  lemma RevisionOrder(n: nat, m: nat)
    requires n < U64_LIMIT && m < U64_LIMIT
    ensures Less(BigEndian(n, 8), BigEndian(m, 8)) <==> n < m
  {
    U64Width();
    var a, b := BigEndian(n, 8), BigEndian(m, 8);
    LessIrreflexive(a);
    if n < m {
      BigEndianMonotone(n, m, 8);
    } else if m < n {
      BigEndianMonotone(m, n, 8);
      if Less(a, b) { LessTransitive(a, b, a); }
    }
  }

  // --- prefix scans -----------------------------------------------------------

  predicate HasPrefix(k: Key, p: Key) {
    |p| <= |k| && k[..|p|] == p
  }

  /** The trailing 0xff bytes dropped, the last remaining byte incremented. */
  function UpperBound(p: Key): Option<Key>
    decreases |p|
  {
    if p == [] then None
    else if p[|p| - 1] < 255 then Some(p[..|p| - 1] + [p[|p| - 1] + 1])
    else UpperBound(p[..|p| - 1])
  }

  method PrefixUpperBound(prefix: Key) returns (end: Option<Key>)
    ensures forall k :: HasPrefix(k, prefix) <==> AtMost(prefix, k) && (end.Some? ==> Less(k, end.value))
  {
    var i := |prefix| - 1;
    assert prefix[..|prefix|] == prefix;
    while i >= 0 && prefix[i] == 255
      invariant -1 <= i < |prefix|
      invariant UpperBound(prefix[..i + 1]) == UpperBound(prefix)
    {
      assert prefix[..i + 1][..i] == prefix[..i];
      i := i - 1;
    }
    if i >= 0 {
      assert prefix[..i + 1][..i] == prefix[..i];
      end := Some(prefix[..i] + [prefix[i] + 1]);
    } else {
      end := None;
    }
    forall k ensures HasPrefix(k, prefix) <==> AtMost(prefix, k) && (end.Some? ==> Less(k, end.value)) {
      PrefixRange(k, prefix);
    }
  }

  predicate InPrefixRange(k: Key, p: Key) {
    AtMost(p, k) && (UpperBound(p).Some? ==> Less(k, UpperBound(p).value))
  }

  /** [p, UpperBound(p)) holds exactly the keys that start with p. */
  lemma {:induction false} PrefixRange(k: Key, p: Key)
    ensures HasPrefix(k, p) <==> InPrefixRange(k, p)
    decreases |p|
  {
    if p == [] {
      assert k[..0] == [];
    } else if k != [] && k[0] == p[0] {
      PrefixRange(k[1..], p[1..]);
      assert k == [k[0]] + k[1..] && p == [p[0]] + p[1..];
      if |p| <= |k| { assert k[..|p|] == [k[0]] + k[1..][..|p| - 1]; }
      UpperBoundTail(p);
      if UpperBound(p[1..]).Some? {
        LessAfterPrefix([p[0]], k[1..], UpperBound(p[1..]).value);
      } else if p[0] < 255 {
        assert Less(k, [p[0] + 1]);
      }
    } else if k != [] {
      UpperBoundTail(p);
      if |p| <= |k| { assert k[..|p|][0] == k[0]; }
      if p[0] < 255 { assert !Less(k[1..], [p[0] + 1][1..]); }
    }
  }

  lemma {:induction false} UpperBoundTail(p: Key)
    requires p != []
    ensures UpperBound(p) ==
            if UpperBound(p[1..]).Some? then Some([p[0]] + UpperBound(p[1..]).value)
            else if p[0] < 255 then Some([p[0] + 1]) else None
    decreases |p|
  {
    if |p| > 1 {
      var init := p[..|p| - 1];
      assert p[1..][..|p| - 2] == init[1..];
      if p[|p| - 1] < 255 {
        assert p[..|p| - 1] + [p[|p| - 1] + 1] == [p[0]] + (p[1..][..|p| - 2] + [p[|p| - 1] + 1]);
      } else {
        UpperBoundTail(init);
      }
    } else {
      assert p[..0] == [] && p[1..] == [];
      if p[0] < 255 { assert p[..0] + [p[0] + 1] == [p[0] + 1]; }
      assert UpperBound(p[..0]) == None;
    }
  }

  /** The bound shared by every resume-after-cursor scan: `cursor NUL`. */
  lemma {:induction false} CursorBound(cursor: Key, k: Key)
    ensures AtMost(cursor + [0], k) <==> Less(cursor, k)
    decreases |cursor|
  {
    if cursor == [] {
      assert cursor + [0] == [0] && [0][1..] == [];
      if k != [] { assert k == [k[0]] + k[1..]; }
    } else if k != [] {
      CursorBound(cursor[1..], k[1..]);
      assert (cursor + [0])[1..] == cursor[1..] + [0];
      assert k == [k[0]] + k[1..] && cursor + [0] == [cursor[0]] + (cursor[1..] + [0]);
    }
  }

  // --- scanning the history namespace -----------------------------------------

  ghost predicate Bounded(vs: set<Version>) {
    forall v :: v in vs ==> v.rev < U64_LIMIT
  }

  /** The raw history keys of a set of versions that start with a prefix. */
  function RawKeys(vs: set<Version>, prefix: Key): set<Key> {
    set v | v in vs && HasPrefix(HistKey(v), prefix) :: HistKey(v)
  }

  /** The versions an iterator over [prefix, UpperBound(prefix)) yields. */
  function HistScan(vs: set<Version>, prefix: Key): (h: seq<Version>)
    requires Bounded(vs)
    ensures forall v :: v in h <==> v in vs && HasPrefix(HistKey(v), prefix)
    ensures |h| == |Sorted(RawKeys(vs, prefix))|
    ensures forall i :: 0 <= i < |h| ==> HistKey(h[i]) == Sorted(RawKeys(vs, prefix))[i]
  {
    var raws := Sorted(RawKeys(vs, prefix));
    RawsParse(vs, prefix, raws);
    var h := ParseAll(raws);
    HistScanHolds(vs, prefix, raws, h);
    h
  }

  function ParseAll(raws: seq<Key>): (h: seq<Version>)
    requires forall i :: 0 <= i < |raws| ==> ParseHistKey(raws[i]).Some?
    ensures |h| == |raws| && forall i :: 0 <= i < |h| ==> ParseHistKey(raws[i]) == Some(h[i])
  {
    seq(|raws|, i requires 0 <= i < |raws| => ParseHistKey(raws[i]).value)
  }

  lemma RawsParse(vs: set<Version>, prefix: Key, raws: seq<Key>)
    requires Bounded(vs) && forall raw :: raw in raws <==> raw in RawKeys(vs, prefix)
    ensures forall i :: 0 <= i < |raws| ==> ParseHistKey(raws[i]).Some?
  {
    RawKeysParse(vs, prefix);
    forall i | 0 <= i < |raws| ensures ParseHistKey(raws[i]).Some? { assert raws[i] in raws; }
  }

  lemma RawKeysParse(vs: set<Version>, prefix: Key)
    requires Bounded(vs)
    ensures forall raw :: raw in RawKeys(vs, prefix) ==>
              ParseHistKey(raw).Some? && ParseHistKey(raw).value in vs && HistKey(ParseHistKey(raw).value) == raw
  {
    forall raw | raw in RawKeys(vs, prefix)
      ensures ParseHistKey(raw).Some? && ParseHistKey(raw).value in vs && HistKey(ParseHistKey(raw).value) == raw
    {
      var v :| v in vs && HasPrefix(HistKey(v), prefix) && HistKey(v) == raw;
      ParseHistKeyRoundTrip(v);
    }
  }

  lemma HistScanHolds(vs: set<Version>, prefix: Key, raws: seq<Key>, h: seq<Version>)
    requires Bounded(vs) && |h| == |raws|
    requires forall raw :: raw in raws <==> raw in RawKeys(vs, prefix)
    requires forall i :: 0 <= i < |h| ==> ParseHistKey(raws[i]) == Some(h[i])
    ensures forall v :: v in h <==> v in vs && HasPrefix(HistKey(v), prefix)
    ensures forall i :: 0 <= i < |h| ==> HistKey(h[i]) == raws[i]
  {
    RawKeysParse(vs, prefix);
    forall i | 0 <= i < |h| ensures HistKey(h[i]) == raws[i] && h[i] in vs && HasPrefix(HistKey(h[i]), prefix) {
      assert raws[i] in raws;
      var v :| v in vs && HasPrefix(HistKey(v), prefix) && HistKey(v) == raws[i];
    }
    forall v | v in vs && HasPrefix(HistKey(v), prefix) ensures v in h {
      assert HistKey(v) in raws;
      var i :| 0 <= i < |raws| && raws[i] == HistKey(v);
      ParseHistKeyRoundTrip(v);
      assert h[i] == v;
    }
  }

  /** Without NUL bytes the scan is ordered by key, then by revision. */
  lemma HistScanOrder(vs: set<Version>, prefix: Key)
    requires Bounded(vs) && forall v :: v in vs ==> NulFree(v.key)
    ensures var h := HistScan(vs, prefix); forall i, j :: 0 <= i < j < |h| ==> Before(h[i], h[j])
  {
    var h, raws := HistScan(vs, prefix), Sorted(RawKeys(vs, prefix));
    forall i, j | 0 <= i < j < |h| ensures Before(h[i], h[j]) {
      assert Less(raws[i], raws[j]);
      assert h[i] in h && h[j] in h;
      HistKeyOrder(h[i], h[j]);
    }
  }

  /** A NUL-free prefix cannot reach into the separator or the revision. */
  lemma HistKeyPrefix(v: Version, prefix: Key)
    requires NulFree(prefix)
    ensures HasPrefix(HistKey(v), prefix) <==> HasPrefix(v.key, prefix)
  {
    var raw := HistKey(v);
    if |prefix| <= |v.key| {
      assert raw[..|prefix|] == v.key[..|prefix|];
    } else if |prefix| <= |raw| {
      assert raw[..|prefix|][|v.key|] == 0 && prefix[|v.key|] in prefix;
    }
  }
}
