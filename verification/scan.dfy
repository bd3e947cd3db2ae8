/**
 Listings at a revision. The code merges two iterators, one over latest
 records and one over archived versions, keeping a page of the keys visible at
 r; the page must be what a point read of every key would give.
 */
module Scan {
  import opened Bytes
  import opened Layout
  import opened Kv
  import opened Mvcc
  import opened History
  import opened Reads

  // --- what a listing must be ------------------------------------------------------

  function Keys(out: seq<Entry>): (q: seq<Key>)
    ensures |q| == |out| && forall i :: 0 <= i < |q| ==> q[i] == out[i].key
  {
    seq(|out|, i requires 0 <= i < |out| => out[i].key)
  }

  /** Every key the group has a record or an archived version of. */
  ghost function Known(s: State): set<Key> {
    s.latest.Keys + set v | v in s.hist :: v.key
  }

  /** The keys under a prefix, past a cursor, that exist as of revision r. */
  ghost function Visible(s: State, prefix: Key, cursor: Key, r: nat): set<Key> {
    set k | k in Known(s) && HasPrefix(k, prefix) && (cursor == [] || Less(cursor, k)) && ReadAt(s, k, r).Some?
  }

  ghost predicate IsListing(out: seq<Entry>, s: State, prefix: Key, cursor: Key, limit: nat, r: nat) {
    && IsPage(Keys(out), Visible(s, prefix, cursor, r), limit)
    && forall i :: 0 <= i < |out| ==> ReadAt(s, out[i].key, r) == Some(out[i].record)
  }

  // --- what the merge lists --------------------------------------------------------

  /** The bounds of the latest-record iterator. */
  predicate InLatestScan(k: Key, prefix: Key, cursor: Key) {
    && (if cursor == [] then AtMost(prefix, k) else Less(cursor, k))
    && (UpperBound(prefix).Some? ==> Less(k, UpperBound(prefix).value))
  }

  /** What the merge resolves k to; the history iterator stays under the prefix. */
  ghost function Resolve(s: State, prefix: Key, cursor: Key, k: Key, r: nat): Option<Record> {
    if k in s.latest && InLatestScan(k, prefix, cursor) && s.latest[k].rev <= r then Some(s.latest[k])
    else if HasPrefix(k, prefix) then HistRead(s.hist, k, r)
    else None
  }

  ghost function Merged(s: State, prefix: Key, cursor: Key, r: nat): set<Key> {
    set k | k in Known(s) && (cursor == [] || Less(cursor, k)) && Resolve(s, prefix, cursor, k, r).Some?
  }

  /** The state assumed of a store: uint64 revisions, keys without NUL bytes. */
  ghost predicate WellKeyed(s: State) {
    && Bounded(s.hist.Keys)
    && forall v :: v in s.hist ==> NulFree(v.key)
  }

  /**
   Exactly when the merge lists the prefix: no live record visible at r may
   lie between a non-empty cursor and the prefix, because the latest-record
   iterator starts at the cursor, wherever that is.
   */
  lemma MergeIsVisible(s: State, prefix: Key, cursor: Key, r: nat)
    ensures Merged(s, prefix, cursor, r) == Visible(s, prefix, cursor, r) <==>
            cursor == [] || forall k :: k in s.latest && Less(cursor, k) && Less(k, prefix) ==> r < s.latest[k].rev
    ensures Visible(s, prefix, cursor, r) <= Merged(s, prefix, cursor, r)
    ensures forall k :: k in Visible(s, prefix, cursor, r) ==> Resolve(s, prefix, cursor, k, r) == ReadAt(s, k, r)
  {
    forall k ensures HasPrefix(k, prefix) <==> InPrefixRange(k, prefix) { PrefixRange(k, prefix); }
    forall k | k in Merged(s, prefix, cursor, r) && k !in Visible(s, prefix, cursor, r)
      ensures k in s.latest && cursor != [] && Less(cursor, k) && Less(k, prefix) && s.latest[k].rev <= r
    {
      LessTotal(prefix, k);
    }
    if k :| cursor != [] && k in s.latest && Less(cursor, k) && Less(k, prefix) && s.latest[k].rev <= r {
      LessIrreflexive(k);
      if Less(prefix, k) { LessTransitive(k, prefix, k); }
      assert !HasPrefix(k, prefix);
      if UpperBound(prefix).Some? {
        PrefixRange(prefix, prefix);
        LessTransitive(k, prefix, UpperBound(prefix).value);
      }
      assert k in Merged(s, prefix, cursor, r) && k !in Visible(s, prefix, cursor, r);
    }
  }

  /** What the merge returns for any cursor: a page of what it resolves. */
  ghost predicate IsMerge(out: seq<Entry>, s: State, prefix: Key, cursor: Key, limit: nat, r: nat) {
    && IsPage(Keys(out), Merged(s, prefix, cursor, r), limit)
    && forall i :: 0 <= i < |out| ==> Resolve(s, prefix, cursor, out[i].key, r) == Some(out[i].record)
  }

  /** One live key before the prefix, a cursor before that: the key is listed. */
  lemma LowCursorListsOthers(s: State)
    requires s.latest == map[[97] := Record(1, [], false)] && s.hist == map[]
    ensures Visible(s, [98], [96], 1) == {} && [97] in Merged(s, [98], [96], 1)
  {
    assert Less([96], [97]) && Less([97], [98]);
    assert !HasPrefix([97], [98]);
    MergeIsVisible(s, [98], [96], 1);
    assert [97] in s.latest;
  }

  // --- the merge loop --------------------------------------------------------------

  /** The keys still ahead of the two iterators. */
  ghost function Ahead(sm: seq<Key>, si: nat, h: seq<Version>, hi: nat): set<Key>
    requires si <= |sm| && hi <= |h|
  {
    (set i | si <= i < |sm| :: sm[i]) + (set j | hi <= j < |h| :: h[j].key)
  }

  ghost predicate Iterators(s: State, prefix: Key, cursor: Key, sm: seq<Key>, h: seq<Version>) {
    && Ascending(sm)
    && (forall k :: k in sm <==> k in s.latest && InLatestScan(k, prefix, cursor))
    && (forall i, j :: 0 <= i < j < |h| ==> Before(h[i], h[j]))
    && (forall v :: v in h <==> v in s.hist && HasPrefix(v.key, prefix))
  }

  /** The next key to resolve: the smaller of the two heads. */
  predicate IsHead(k: Key, sm: seq<Key>, si: nat, h: seq<Version>, hi: nat) {
    && (si < |sm| || hi < |h|)
    && (si < |sm| ==> AtMost(k, sm[si]))
    && (hi < |h| ==> AtMost(k, h[hi].key))
    && ((si < |sm| && k == sm[si]) || (hi < |h| && k == h[hi].key))
  }

  lemma HeadIsLeast(k: Key, sm: seq<Key>, si: nat, h: seq<Version>, hi: nat)
    requires si <= |sm| && hi <= |h| && IsHead(k, sm, si, h, hi)
    requires Ascending(sm) && forall i, j :: 0 <= i < j < |h| ==> Before(h[i], h[j])
    ensures k in Ahead(sm, si, h, hi)
    ensures forall l :: l in Ahead(sm, si, h, hi) ==> AtMost(k, l)
  {
    forall l | l in Ahead(sm, si, h, hi) ensures AtMost(k, l) {
      if i :| si <= i < |sm| && sm[i] == l {
        if i > si && k != sm[si] { LessTransitive(k, sm[si], sm[i]); }
      } else {
        var j :| hi <= j < |h| && h[j].key == l;
        if j > hi && h[hi].key != l && k != h[hi].key { LessTransitive(k, h[hi].key, l); }
      }
    }
  }

  /** Moving past every occurrence of the head removes exactly it. */
  lemma Advance(k: Key, sm: seq<Key>, si: nat, si': nat, h: seq<Version>, hi: nat, hi': nat)
    requires si <= si' <= |sm| && hi <= hi' <= |h| && IsHead(k, sm, si, h, hi)
    requires Ascending(sm) && forall i, j :: 0 <= i < j < |h| ==> Before(h[i], h[j])
    requires si' == (if si < |sm| && sm[si] == k then si + 1 else si)
    requires forall j :: hi <= j < hi' ==> h[j].key == k
    requires hi' < |h| ==> h[hi'].key != k
    ensures Ahead(sm, si', h, hi') == Ahead(sm, si, h, hi) - {k}
  {
    HeadIsLeast(k, sm, si, h, hi);
    LessIrreflexive(k);
    forall i | si' <= i < |sm| ensures sm[i] != k {
      assert sm[i] in Ahead(sm, si, h, hi);
      if si < i { assert Less(sm[si], sm[i]); if k != sm[si] { LessTransitive(k, sm[si], sm[i]); } }
    }
    forall j | hi' <= j < |h| ensures h[j].key != k {
      assert h[hi'].key in Ahead(sm, si, h, hi);
      if h[hi'].key != h[j].key { LessTransitive(k, h[hi'].key, h[j].key); }
    }
  }

  /** The newest version at or below r among the versions of k passed so far. */
  ghost predicate IsBest(best: Option<HistVersion>, s: State, k: Key, r: nat, h: seq<Version>, hi: nat)
    requires hi <= |h| && forall v :: v in h ==> v in s.hist
  {
    && (best.Some? ==> exists j {:trigger h[j]} :: 0 <= j < hi && h[j].key == k && h[j].rev <= r && s.hist[h[j]] == best.value &&
                         forall i :: 0 <= i < hi && h[i].key == k && h[i].rev <= r ==> h[i].rev <= h[j].rev)
    && (best.None? ==> forall i :: 0 <= i < hi && h[i].key == k ==> r < h[i].rev)
  }

  function FromHist(best: Option<HistVersion>): Option<Record> {
    if best.None? || best.value.deleted then None
    else Some(Record(best.value.rev, best.value.value, best.value.blob))
  }

  /** Once every version of k has been passed, `best` answers the read. */
  lemma BestIsRead(best: Option<HistVersion>, s: State, prefix: Key, cursor: Key, k: Key, r: nat, sm: seq<Key>, h: seq<Version>, hi: nat)
    requires hi <= |h| && Iterators(s, prefix, cursor, sm, h) && IsBest(best, s, k, r, h, hi)
    requires forall j :: hi <= j < |h| ==> h[j].key != k
    ensures HasPrefix(k, prefix) ==> FromHist(best) == HistRead(s.hist, k, r)
    ensures !HasPrefix(k, prefix) ==> best.None?
  {
    if HasPrefix(k, prefix) {
      var found := NewestAt(s.hist, k, r);
      if found.Some? {
        assert Version(k, found.value) in h;
        var i :| 0 <= i < |h| && h[i] == Version(k, found.value);
      }
    }
  }

  /**
   Everything the iterators have passed lies before everything ahead, and the
   output holds exactly the listed keys among what was passed.
   */
  ghost predicate Progress(s: State, prefix: Key, cursor: Key, r: nat, sm: seq<Key>, si: nat, h: seq<Version>, hi: nat, out: seq<Entry>)
    requires si <= |sm| && hi <= |h|
  {
    && (forall i, l :: 0 <= i < si && l in Ahead(sm, si, h, hi) ==> Less(sm[i], l))
    && (forall j, l :: 0 <= j < hi && l in Ahead(sm, si, h, hi) ==> Less(h[j].key, l))
    && Ascending(Keys(out))
    && (forall k :: k in Keys(out) <==> k in Merged(s, prefix, cursor, r) && k !in Ahead(sm, si, h, hi))
    && (forall i :: 0 <= i < |out| ==> Resolve(s, prefix, cursor, out[i].key, r) == Some(out[i].record))
  }

  /** A listed key not ahead has been passed, so it lies before what is ahead. */
  lemma ListedIsPassed(s: State, prefix: Key, cursor: Key, r: nat, sm: seq<Key>, si: nat, h: seq<Version>, hi: nat, out: seq<Entry>, k: Key, l: Key)
    requires si <= |sm| && hi <= |h| && Iterators(s, prefix, cursor, sm, h) && Progress(s, prefix, cursor, r, sm, si, h, hi, out)
    requires k in Merged(s, prefix, cursor, r) && k !in Ahead(sm, si, h, hi) && l in Ahead(sm, si, h, hi)
    ensures Less(k, l)
  {
    if k in sm {
      var i :| 0 <= i < |sm| && sm[i] == k;
    } else {
      var found := NewestAt(s.hist, k, r);
      assert Version(k, found.value) in h;
      var j :| 0 <= j < |h| && h[j] == Version(k, found.value);
    }
  }

  /** No version of the head key has been passed yet. */
  lemma HeadUnread(s: State, k: Key, r: nat, sm: seq<Key>, si: nat, h: seq<Version>, hi: nat)
    requires si <= |sm| && hi <= |h| && (forall v :: v in h ==> v in s.hist)
    requires k in Ahead(sm, si, h, hi)
    requires forall j, l :: 0 <= j < hi && l in Ahead(sm, si, h, hi) ==> Less(h[j].key, l)
    ensures IsBest(None, s, k, r, h, hi)
  {
    LessIrreflexive(k);
  }

  lemma ProgressStep(s: State, prefix: Key, cursor: Key, r: nat, sm: seq<Key>, si: nat, si': nat, h: seq<Version>, hi: nat, hi': nat, out: seq<Entry>, out': seq<Entry>, k: Key)
    requires si <= si' <= |sm| && hi <= hi' <= |h| && Iterators(s, prefix, cursor, sm, h) && Progress(s, prefix, cursor, r, sm, si, h, hi, out)
    requires k in Ahead(sm, si, h, hi) && (forall l :: l in Ahead(sm, si, h, hi) ==> AtMost(k, l))
    requires Ahead(sm, si', h, hi') == Ahead(sm, si, h, hi) - {k}
    requires (forall i :: si <= i < si' ==> sm[i] == k) && (forall j :: hi <= j < hi' ==> h[j].key == k)
    requires if k in Merged(s, prefix, cursor, r)
             then out' == out + [Entry(k, Resolve(s, prefix, cursor, k, r).value)]
             else out' == out
    ensures Progress(s, prefix, cursor, r, sm, si', h, hi', out')
  {
    forall l | l in Keys(out) ensures Less(l, k) {
      ListedIsPassed(s, prefix, cursor, r, sm, si, h, hi, out, l, k);
    }
    var q, q' := Keys(out), Keys(out');
    forall i, j | 0 <= i < j < |q'| ensures Less(q'[i], q'[j]) {
      assert q'[i] == q[i] && q[i] in q;
      if j < |q| { assert q'[j] == q[j]; }
    }
    forall l ensures l in q' <==> l in q || (l == k && k in Merged(s, prefix, cursor, r)) {
      if l in q { var i :| 0 <= i < |q| && q[i] == l; assert q'[i] == l; }
      if k in Merged(s, prefix, cursor, r) { assert q'[|q|] == k; }
      if l in q' { var i :| 0 <= i < |q'| && q'[i] == l; if i < |q| { assert q[i] == l; } }
    }
  }

  lemma ListingDone(s: State, prefix: Key, cursor: Key, r: nat, sm: seq<Key>, si: nat, h: seq<Version>, hi: nat, out: seq<Entry>, max: nat)
    requires si <= |sm| && hi <= |h| && Iterators(s, prefix, cursor, sm, h) && Progress(s, prefix, cursor, r, sm, si, h, hi, out)
    requires |out| == max || (|out| < max && si == |sm| && hi == |h|)
    ensures IsPage(Keys(out), Merged(s, prefix, cursor, r), max)
  {
    forall k, l | k in Keys(out) && l in Merged(s, prefix, cursor, r) && Less(l, k) ensures l !in Ahead(sm, si, h, hi) {
      if l in Ahead(sm, si, h, hi) {
        ListedIsPassed(s, prefix, cursor, r, sm, si, h, hi, out, k, l);
        LessTransitive(k, l, k);
        LessIrreflexive(k);
      }
    }
  }

  /** A cursor at or past the prefix leaves nothing in between. */
  lemma MergeIsListing(out: seq<Entry>, s: State, prefix: Key, cursor: Key, limit: nat, r: nat)
    requires cursor == [] || AtMost(prefix, cursor)
    requires IsPage(Keys(out), Merged(s, prefix, cursor, r), limit)
    requires forall i :: 0 <= i < |out| ==> Resolve(s, prefix, cursor, out[i].key, r) == Some(out[i].record)
    ensures IsListing(out, s, prefix, cursor, limit, r)
  {
    forall k | Less(cursor, k) && cursor != [] ensures !Less(k, prefix) {
      LessIrreflexive(k);
      if Less(k, prefix) {
        if prefix != cursor { LessTransitive(prefix, cursor, k); }
        LessTransitive(k, prefix, k);
      }
    }
    MergeIsVisible(s, prefix, cursor, r);
    forall i | 0 <= i < |out| ensures ReadAt(s, out[i].key, r) == Some(out[i].record) {
      assert Keys(out)[i] in Keys(out);
    }
  }

  lemma OpenIterators(s: State, prefix: Key, cursor: Key, sm: seq<Key>, h: seq<Version>)
    requires WellKeyed(s) && NulFree(prefix)
    requires sm == Sorted(set k | k in s.latest && InLatestScan(k, prefix, cursor))
    requires h == HistScan(s.hist.Keys, prefix)
    ensures Iterators(s, prefix, cursor, sm, h)
    ensures forall r :: Progress(s, prefix, cursor, r, sm, 0, h, 0, [])
  {
    HistScanOrder(s.hist.Keys, prefix);
    forall v: Version ensures HasPrefix(HistKey(v), prefix) <==> HasPrefix(v.key, prefix) { HistKeyPrefix(v, prefix); }
    forall r, k | k in Merged(s, prefix, cursor, r) ensures k in Ahead(sm, 0, h, 0) { MergedIsAhead(s, prefix, cursor, r, sm, h, k); }
  }

  lemma MergedIsAhead(s: State, prefix: Key, cursor: Key, r: nat, sm: seq<Key>, h: seq<Version>, k: Key)
    requires forall l :: l in sm <==> l in s.latest && InLatestScan(l, prefix, cursor)
    requires forall v :: v in h <==> v in s.hist && HasPrefix(v.key, prefix)
    requires k in Merged(s, prefix, cursor, r)
    ensures k in Ahead(sm, 0, h, 0)
  {
    if k in s.latest && InLatestScan(k, prefix, cursor) {
      assert k in sm;
    } else {
      assert Version(k, NewestAt(s.hist, k, r).value) in h;
    }
  }

  /** Opens the two iterators. */
  method NewIters(s: State, prefix: Key, cursor: Key) returns (sm: seq<Key>, h: seq<Version>)
    requires WellKeyed(s) && NulFree(prefix)
    ensures Iterators(s, prefix, cursor, sm, h)
    ensures forall r :: Progress(s, prefix, cursor, r, sm, 0, h, 0, [])
  {
    sm := Sorted(set k | k in s.latest && InLatestScan(k, prefix, cursor));
    h := HistScan(s.hist.Keys, prefix);
    OpenIterators(s, prefix, cursor, sm, h);
  }

  /** What the two gathered candidates resolve to. */
  lemma HeadResolved(s: State, prefix: Key, cursor: Key, k: Key, r: nat, sm: seq<Key>, si: nat, h: seq<Version>, hi: nat, latest: Option<Record>, best: Option<HistVersion>)
    requires si <= |sm| && hi <= |h| && Iterators(s, prefix, cursor, sm, h)
    requires IsHead(k, sm, si, h, hi)
    requires forall i, l :: 0 <= i < si && l in Ahead(sm, si, h, hi) ==> Less(sm[i], l)
    requires latest == (if si < |sm| && sm[si] == k then Some(s.latest[k]) else None)
    requires HasPrefix(k, prefix) ==> FromHist(best) == HistRead(s.hist, k, r)
    requires !HasPrefix(k, prefix) ==> best.None?
    ensures k in Known(s)
    ensures Resolve(s, prefix, cursor, k, r) ==
            if latest.Some? && latest.value.rev <= r then latest else FromHist(best)
  {
    HeadIsLeast(k, sm, si, h, hi);
    if hi < |h| && h[hi].key == k { assert h[hi] in h; }
    if si < |sm| && sm[si] == k { assert sm[si] in sm; }
    if k in sm {
      var i :| 0 <= i < |sm| && sm[i] == k;
      LessIrreflexive(k);
      if si < i && k != sm[si] { LessTransitive(k, sm[si], sm[i]); }
      assert i == si;
    }
  }

  /** Walks over the versions of k, remembering the newest at or below r. */
  method PassVersions(s: State, k: Key, r: nat, h: seq<Version>, hi0: nat) returns (best: Option<HistVersion>, hi: nat)
    requires hi0 <= |h| && (forall v :: v in h ==> v in s.hist) && IsBest(None, s, k, r, h, hi0)
    requires forall i, j :: 0 <= i < j < |h| ==> Before(h[i], h[j])
    ensures hi0 <= hi <= |h| && IsBest(best, s, k, r, h, hi)
    ensures forall j :: hi0 <= j < hi ==> h[j].key == k
    ensures hi < |h| ==> h[hi].key != k
  {
    best, hi := None, hi0;
    while hi < |h| && h[hi].key == k
      invariant hi0 <= hi <= |h|
      invariant forall j :: hi0 <= j < hi ==> h[j].key == k
      invariant IsBest(best, s, k, r, h, hi)
    {
      BestStep(best, s, k, r, h, hi);
      if h[hi].rev <= r { best := Some(s.hist[h[hi]]); }
      hi := hi + 1;
    }
  }

  /**
   Takes the next key off the two iterators: everything known about it is
   gathered and both move past it.
   */
  method Gather(s: State, ghost prefix: Key, ghost cursor: Key, r: nat, sm: seq<Key>, si0: nat, h: seq<Version>, hi0: nat)
    returns (k: Key, latest: Option<Record>, best: Option<HistVersion>, si: nat, hi: nat)
    requires si0 <= |sm| && hi0 <= |h| && (si0 < |sm| || hi0 < |h|) && Iterators(s, prefix, cursor, sm, h)
    requires forall i, l :: 0 <= i < si0 && l in Ahead(sm, si0, h, hi0) ==> Less(sm[i], l)
    requires forall j, l :: 0 <= j < hi0 && l in Ahead(sm, si0, h, hi0) ==> Less(h[j].key, l)
    ensures si0 <= si <= |sm| && hi0 <= hi <= |h| && si0 + hi0 < si + hi
    ensures k in Ahead(sm, si0, h, hi0) && (forall l :: l in Ahead(sm, si0, h, hi0) ==> AtMost(k, l))
    ensures Ahead(sm, si, h, hi) == Ahead(sm, si0, h, hi0) - {k}
    ensures (forall i :: si0 <= i < si ==> sm[i] == k) && (forall j :: hi0 <= j < hi ==> h[j].key == k)
    ensures k in Known(s)
    ensures Resolve(s, prefix, cursor, k, r) == if latest.Some? && latest.value.rev <= r then latest else FromHist(best)
  {
    si, hi := si0, hi0;
    k := if si < |sm| && !(hi < |h| && Less(h[hi].key, sm[si])) then sm[si] else h[hi].key;
    if si < |sm| && hi < |h| { LessTotal(h[hi].key, sm[si]); }
    HeadIsLeast(k, sm, si, h, hi);
    HeadUnread(s, k, r, sm, si, h, hi);
    latest := None;
    if si < |sm| && sm[si] == k {
      assert sm[si] in sm;
      latest := Some(s.latest[k]);
      si := si + 1;
    }
    best, hi := PassVersions(s, k, r, h, hi);
    Advance(k, sm, si0, si, h, hi0, hi);
    assert forall j :: hi <= j < |h| ==> h[j].key in Ahead(sm, si, h, hi);
    BestIsRead(best, s, prefix, cursor, k, r, sm, h, hi);
    HeadResolved(s, prefix, cursor, k, r, sm, si0, h, hi0, latest, best);
  }

  /** An ascending scan: the last match so far is the newest. */
  lemma BestStep(best: Option<HistVersion>, s: State, k: Key, r: nat, h: seq<Version>, hi: nat)
    requires hi < |h| && (forall v :: v in h ==> v in s.hist) && IsBest(best, s, k, r, h, hi) && h[hi].key == k
    requires forall i, j :: 0 <= i < j < |h| ==> Before(h[i], h[j])
    ensures h[hi] in s.hist
    ensures IsBest(if h[hi].rev <= r then Some(s.hist[h[hi]]) else best, s, k, r, h, hi + 1)
  {
    assert h[hi] in h;
    LessIrreflexive(k);
  }

  /** The merge scan: a page of the keys visible at r, each resolved as read. */
  method ListAt(s: State, prefix: Key, cursor: Key, limit: int, r: nat) returns (out: seq<Entry>)
    requires WellKeyed(s) && NulFree(prefix)
    ensures IsMerge(out, s, prefix, cursor, ClampLimit(limit), r)
    ensures (cursor == [] || AtMost(prefix, cursor)) ==> IsListing(out, s, prefix, cursor, ClampLimit(limit), r)
  {
    var max := ClampLimit(limit);
    var sm, h := NewIters(s, prefix, cursor);
    var si, hi := 0, 0;
    out := [];
    while (si < |sm| || hi < |h|) && |out| < max
      invariant si <= |sm| && hi <= |h| && |out| <= max
      invariant Progress(s, prefix, cursor, r, sm, si, h, hi, out)
      decreases |sm| - si + |h| - hi
    {
      ghost var si0, hi0, out0 := si, hi, out;
      var k, latest, best;
      k, latest, best, si, hi := Gather(s, prefix, cursor, r, sm, si, h, hi);
      if cursor != [] && !Less(cursor, k) {
        // A history key at or before the cursor: listed by an earlier page.
      } else if latest.Some? && latest.value.rev <= r {
        out := out + [Entry(k, latest.value)];
      } else if best.Some? && !best.value.deleted {
        out := out + [Entry(k, Record(best.value.rev, best.value.value, best.value.blob))];
      }
      ProgressStep(s, prefix, cursor, r, sm, si0, si, h, hi0, hi, out0, out, k);
    }
    ListingDone(s, prefix, cursor, r, sm, si, h, hi, out, max);
    if cursor == [] || AtMost(prefix, cursor) { MergeIsListing(out, s, prefix, cursor, max, r); }
  }

  // --- pages over time -------------------------------------------------------------

  /** The plain listing of a past state: its own latest records. */
  ghost function Listed(s: State, prefix: Key, cursor: Key): set<Key> {
    set k | k in s.latest && HasPrefix(k, prefix) && (cursor == [] || Less(cursor, k))
  }

  /** A listing at r shows exactly the latest records. */
  ghost predicate ListsLatest(s: State, prefix: Key, cursor: Key, r: nat) {
    && Visible(s, prefix, cursor, r) == Listed(s, prefix, cursor)
    && forall k :: k in Listed(s, prefix, cursor) ==> ReadAt(s, k, r) == Some(s.latest[k])
  }

  /**
   The listing of a group at its own revision, or at any other: it is the
   plain listing if and only if no listed live record has a larger revision
   and no key without a live record still has a version that answers.
   */
  lemma ListsLatestIff(s: State, prefix: Key, cursor: Key, r: nat)
    requires Stamped(s)
    ensures ListsLatest(s, prefix, cursor, r) <==>
            forall k :: k in Known(s) && HasPrefix(k, prefix) && (cursor == [] || Less(cursor, k)) ==>
              if k in s.latest then s.latest[k].rev <= r else HistRead(s.hist, k, r).None?
  {
    forall k | k in s.latest ensures ReadAt(s, k, r) == Some(s.latest[k]) <==> s.latest[k].rev <= r { LiveReadIff(s, k, r); }
    if ListsLatest(s, prefix, cursor, r) {
      forall k | k in Known(s) && HasPrefix(k, prefix) && (cursor == [] || Less(cursor, k))
        ensures if k in s.latest then s.latest[k].rev <= r else HistRead(s.hist, k, r).None?
      {
        assert k in s.latest <==> k in Listed(s, prefix, cursor);
        assert k !in s.latest ==> k !in Visible(s, prefix, cursor, r);
      }
    }
  }

  /**
   A listing at revision r of the present state is the plain listing of the
   state the group had at r: the same keys, in order, with the same records.
   */
  lemma ListingTimeTravel(c: Config, log: Log, out: seq<Entry>, prefix: Key, cursor: Key, limit: nat, r: nat)
    requires Indexed(log) && CleanLog(log) && Run(c, log).cutoff <= r
    requires IsListing(out, Run(c, log), prefix, cursor, limit, r)
    ensures var past := Run(c, Upto(log, r));
            && IsPage(Keys(out), Listed(past, prefix, cursor), limit)
            && forall i :: 0 <= i < |out| ==> Lookup(past.latest, out[i].key) == Some(out[i].record)
  {
    var s, past := Run(c, log), Run(c, Upto(log, r));
    forall k ensures ReadAt(s, k, r) == Lookup(past.latest, k) { TimeTravel(c, log, k, r); }
    forall k | k in past.latest ensures k in Known(s) {
      assert ReadAt(s, k, r).Some?;
      if k !in s.latest { assert Version(k, NewestAt(s.hist, k, r).value) in s.hist; }
    }
    assert Visible(s, prefix, cursor, r) == Listed(past, prefix, cursor);
  }

  /**
   Following a full page's last key as cursor continues the listing exactly.
   The last key must not be the empty string: that cursor reads "from the top".
   */
  lemma ListingContinues(s: State, first: seq<Entry>, second: seq<Entry>, prefix: Key, cursor: Key, limit: nat, more: nat, r: nat)
    requires limit > 0 && |first| == limit && first[|first| - 1].key != []
    requires IsListing(first, s, prefix, cursor, limit, r)
    requires IsListing(second, s, prefix, first[|first| - 1].key, more, r)
    ensures IsListing(first + second, s, prefix, cursor, limit + more, r)
  {
    var last := first[|first| - 1].key;
    var all := Visible(s, prefix, cursor, r);
    assert Keys(first)[|first| - 1] in Keys(first);
    forall k | Less(last, k) && cursor != [] ensures Less(cursor, k) { LessTransitive(cursor, last, k); }
    assert Visible(s, prefix, last, r) == Bytes.After(all, last);
    PagesContinue(Keys(first), Keys(second), all, limit, more);
    assert Keys(first + second) == Keys(first) + Keys(second);
  }
}
