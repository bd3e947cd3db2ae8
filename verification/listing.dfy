/**
 Listing a prefix across shards: each shard's group is scanned in turn, its
 page clipped to the shard's range, and the pages laid end to end. The result
 is the next page of the keyspace as the shard map routes it.
 */
module Listing {
  import opened Bytes
  import opened Layout
  import opened Kv
  import opened Scan
  import opened Machine
  import Split
  import SplitProof

  type Shard = Split.Shard

  /** A key a listing asks for. */
  predicate Wanted(k: Key, prefix: Key, cursor: Key) {
    HasPrefix(k, prefix) && (cursor == [] || Less(cursor, k))
  }

  /** The keys one group's scan returns, whatever the cursor. */
  ghost function GroupKeys(g: State, prefix: Key, cursor: Key): set<Key> {
    set k | k in g.latest && InLatestScan(k, prefix, cursor)
  }

  /** One group's prefix scan. */
  method ListGroup(g: State, prefix: Key, cursor: Key, limit: int) returns (out: seq<Entry>)
    ensures IsPage(Keys(out), GroupKeys(g, prefix, cursor), ClampLimit(limit))
    ensures forall i :: 0 <= i < |out| ==> Lookup(g.latest, out[i].key) == Some(out[i].record)
  {
    var keys := set k | k in g.latest && InLatestScan(k, prefix, cursor);
    out := ScanLatest(g, keys, ClampLimit(limit));
  }

  // --- pages ---------------------------------------------------------------------------------

  /** Every key of one set comes before every key of the other. */
  ghost predicate Before(a: set<Key>, b: set<Key>) {
    forall k, l :: k in a && l in b ==> Less(k, l)
  }

  lemma InConcat(a: seq<Key>, b: seq<Key>, k: Key)
    ensures k in a + b <==> k in a || k in b
  {
  }

  lemma PagesJoin(a: seq<Key>, b: seq<Key>, s: set<Key>, t: set<Key>, limit: nat)
    requires IsPage(a, s, limit) && IsPage(b, t, limit - |a|) && Before(s, t) && |a| < limit
    ensures IsPage(a + b, s + t, limit)
  {
    var q := a + b;
    forall i, j | 0 <= i < j < |q| ensures Less(q[i], q[j]) {
      if i < |a| <= j { assert q[i] in a && q[j] == b[j - |a|] && b[j - |a|] in b; }
    }
    forall k, l | k in q && l in s + t && Less(l, k) ensures l in q {
      InConcat(a, b, k);
      InConcat(a, b, l);
      if l in t && k in a {
        LessTransitive(l, k, l);
        LessIrreflexive(l);
      }
    }
  }

  /** A full page stays the page when only later keys are added. */
  lemma FullPageStays(a: seq<Key>, s: set<Key>, t: set<Key>, limit: nat)
    requires IsPage(a, s, limit) && |a| == limit && Before(s, t)
    ensures IsPage(a, s + t, limit)
  {
    forall k, l | k in a && l in s + t && Less(l, k) ensures l in a {
      if l in t {
        LessTransitive(l, k, l);
        LessIrreflexive(l);
      }
    }
  }

  // --- clipping ---------------------------------------------------------------------------------

  /** The part of a group's keys its shard owns. */
  ghost function Owned(range: Range, keys: set<Key>): set<Key> {
    set k | k in keys && range.Contains(k)
  }

  ghost predicate NoneBelow(range: Range, keys: set<Key>) {
    forall k :: k in keys ==> AtMost(range.start, k)
  }

  /** Entries up to the shard's end; later ones are clipped off. */
  method ClipEntries(entries: seq<Entry>, range: Range) returns (out: seq<Entry>)
    requires Ascending(Keys(entries)) && forall i :: 0 <= i < |entries| ==> AtMost(range.start, entries[i].key)
    ensures |out| <= |entries| && out == entries[..|out|]
    ensures forall i :: 0 <= i < |out| ==> range.Contains(entries[i].key)
    ensures forall i :: |out| <= i < |entries| ==> !range.Contains(entries[i].key)
  {
    out := [];
    for i := 0 to |entries|
      invariant |out| <= i && out == entries[..|out|]
      invariant forall j :: 0 <= j < |out| ==> range.Contains(entries[j].key)
      invariant forall j :: |out| <= j < i ==> !range.Contains(entries[j].key)
    {
      var e := entries[i];
      if range.Contains(e.key) {
        // Nothing was clipped before this one: the page ascends.
        assert |out| == i by {
          if |out| < i {
            assert Less(Keys(entries)[|out|], Keys(entries)[i]);
            EndMonotone(range, entries[|out|].key, e.key);
          }
        }
        out := out + [e];
      }
    }
  }

  lemma EndMonotone(range: Range, k: Key, l: Key)
    requires AtMost(range.start, k) && Less(k, l) && range.Contains(l)
    ensures range.Contains(k)
  {
    if range.end != [] { LessTransitive(k, l, range.end); }
  }

  /** Clipping a group's page gives the page of what the shard owns. */
  lemma ClippedPage(q: seq<Key>, n: nat, keys: set<Key>, range: Range, limit: nat)
    requires IsPage(q, keys, limit) && NoneBelow(range, keys) && n <= |q|
    requires forall i :: 0 <= i < n ==> range.Contains(q[i])
    requires forall i :: n <= i < |q| ==> !range.Contains(q[i])
    ensures IsPage(q[..n], Owned(range, keys), limit)
  {
    var p, owned := q[..n], Owned(range, keys);
    forall k | k in q && range.Contains(k) ensures k in p {
      var i :| 0 <= i < |q| && q[i] == k;
      assert p[i] == k;
    }
    forall k | k in owned && |p| < limit ensures k in p {
      if n < |q| {
        assert q[n] in q && q[n] in keys && !range.Contains(q[n]);
        PastEnd(range, k, q[n]);
      }
    }
  }

  lemma PastEnd(range: Range, k: Key, l: Key)
    requires range.Contains(k) && AtMost(range.start, l) && !range.Contains(l)
    ensures Less(k, l)
  {
    LessTotal(l, range.end);
    if range.end != l { LessTransitive(k, range.end, l); }
  }

  // --- the shard walk ---------------------------------------------------------------------------

  /** The shard map as a list ordered by range start, no key owned twice. */
  ghost predicate IsShardList(shards: seq<Shard>, groups: map<Split.Gid, State>) {
    && (forall i :: 0 <= i < |shards| ==> shards[i].gid in groups)
    && (forall i, j :: 0 <= i < j < |shards| ==> AtMost(shards[i].range.start, shards[j].range.start))
    && (forall i, j, k :: 0 <= i < j < |shards| && shards[i].range.Contains(k) ==> !shards[j].range.Contains(k))
  }

  ghost predicate NoKeysBelow(shards: seq<Shard>, groups: map<Split.Gid, State>)
    requires IsShardList(shards, groups)
  {
    forall i :: 0 <= i < |shards| ==> NoneBelow(shards[i].range, groups[shards[i].gid].latest.Keys)
  }

  /** The three tests that skip a shard without asking its group. */
  predicate Skipped(sh: Shard, prefix: Key, cursor: Key) {
    || (sh.range.end != [] && AtMost(sh.range.end, prefix))
    || (UpperBound(prefix).Some? && AtMost(UpperBound(prefix).value, sh.range.start))
    || (cursor != [] && sh.range.end != [] && AtMost(sh.range.end, cursor))
  }

  /** What one shard contributes to a listing. */
  ghost function ShardKeys(sh: Shard, groups: map<Split.Gid, State>, prefix: Key, cursor: Key): set<Key>
    requires sh.gid in groups
  {
    if Skipped(sh, prefix, cursor) then {} else Owned(sh.range, GroupKeys(groups[sh.gid], prefix, cursor))
  }

  /** The keyspace as the walk routes it: each key looked up in its own shard's group. */
  ghost function Routed(shards: seq<Shard>, groups: map<Split.Gid, State>, prefix: Key, cursor: Key): set<Key>
    requires IsShardList(shards, groups)
    decreases |shards|
  {
    if shards == [] then {}
    else Routed(shards[..|shards| - 1], groups, prefix, cursor) + ShardKeys(shards[|shards| - 1], groups, prefix, cursor)
  }

  lemma {:induction false} RoutedHolds(shards: seq<Shard>, groups: map<Split.Gid, State>, prefix: Key, cursor: Key, k: Key)
    requires IsShardList(shards, groups)
    ensures k in Routed(shards, groups, prefix, cursor) <==>
            exists i :: 0 <= i < |shards| && k in ShardKeys(shards[i], groups, prefix, cursor)
    decreases |shards|
  {
    if shards != [] {
      var init := shards[..|shards| - 1];
      RoutedHolds(init, groups, prefix, cursor, k);
      assert forall i :: 0 <= i < |init| ==> init[i] == shards[i];
      if i :| 0 <= i < |init| && k in ShardKeys(init[i], groups, prefix, cursor) { assert shards[i] == init[i]; }
    }
  }

  lemma Between(a: Range, b: Range, k: Key, l: Key)
    requires AtMost(a.start, b.start) && a.Contains(k) && b.Contains(l) && AtMost(l, k)
    ensures a.Contains(l)
  {
    if a.start != b.start && b.start != l { LessTransitive(a.start, b.start, l); }
    if l != k && a.end != [] { LessTransitive(l, k, a.end); }
  }

  lemma RangesOrdered(shards: seq<Shard>, groups: map<Split.Gid, State>, i: nat, j: nat, k: Key, l: Key)
    requires IsShardList(shards, groups) && i < j < |shards| && shards[i].range.Contains(k) && shards[j].range.Contains(l)
    ensures Less(k, l)
  {
    LessTotal(k, l);
    if AtMost(l, k) { Between(shards[i].range, shards[j].range, k, l); }
  }

  lemma ShardsOrdered(shards: seq<Shard>, groups: map<Split.Gid, State>, prefix: Key, cursor: Key, i: nat)
    requires IsShardList(shards, groups) && i < |shards|
    ensures Before(Routed(shards[..i], groups, prefix, cursor), ShardKeys(shards[i], groups, prefix, cursor))
  {
    forall k, l | k in Routed(shards[..i], groups, prefix, cursor) && l in ShardKeys(shards[i], groups, prefix, cursor) ensures Less(k, l) {
      RoutedHolds(shards[..i], groups, prefix, cursor, k);
      var j :| 0 <= j < i && k in ShardKeys(shards[..i][j], groups, prefix, cursor);
      RangesOrdered(shards, groups, j, i, k, l);
    }
  }

  lemma NotBothWays(k: Key, end: Key, l: Key)
    requires Less(k, end) && AtMost(end, l)
    ensures Less(k, l) && k != l && !Less(l, k)
  {
    if end != l { LessTransitive(k, end, l); }
    LessIrreflexive(k);
    if Less(l, k) { LessTransitive(k, l, k); }
  }

  /** No skipped shard owns a key that was asked for. */
  lemma SkippedHasNothing(sh: Shard, prefix: Key, cursor: Key, k: Key)
    requires Skipped(sh, prefix, cursor) && sh.range.Contains(k)
    ensures !Wanted(k, prefix, cursor)
  {
    if Wanted(k, prefix, cursor) {
      PrefixRange(k, prefix);
      if sh.range.end != [] && AtMost(sh.range.end, prefix) {
        NotBothWays(k, sh.range.end, prefix);
      } else if UpperBound(prefix).Some? && AtMost(UpperBound(prefix).value, sh.range.start) {
        NotBothWays(k, UpperBound(prefix).value, sh.range.start);
      } else {
        NotBothWays(k, sh.range.end, cursor);
      }
    }
  }

  ghost predicate ServedBy(e: Entry, shards: seq<Shard>, groups: map<Split.Gid, State>, j: int)
    requires IsShardList(shards, groups)
  {
    0 <= j < |shards| && shards[j].range.Contains(e.key) && Lookup(groups[shards[j].gid].latest, e.key) == Some(e.record)
  }

  /** The entries are the routed records of a page's keys. */
  ghost predicate IsRouted(out: seq<Entry>, shards: seq<Shard>, groups: map<Split.Gid, State>)
    requires IsShardList(shards, groups)
  {
    forall i :: 0 <= i < |out| ==> HasServer(out[i], shards, groups)
  }

  /** One shard's contribution, clipped to what it owns. */
  method ListShard(sh: Shard, groups: map<Split.Gid, State>, prefix: Key, cursor: Key, room: nat) returns (out: seq<Entry>)
    requires sh.gid in groups && !Skipped(sh, prefix, cursor) && 1 <= room <= 10000
    requires NoneBelow(sh.range, groups[sh.gid].latest.Keys)
    ensures IsPage(Keys(out), ShardKeys(sh, groups, prefix, cursor), room)
    ensures forall i :: 0 <= i < |out| ==> sh.range.Contains(out[i].key) && Lookup(groups[sh.gid].latest, out[i].key) == Some(out[i].record)
  {
    var entries := ListGroup(groups[sh.gid], prefix, cursor, room);
    forall i | 0 <= i < |entries| ensures AtMost(sh.range.start, entries[i].key) { assert Keys(entries)[i] in Keys(entries); }
    out := ClipEntries(entries, sh.range);
    ClippedPage(Keys(entries), |out|, GroupKeys(groups[sh.gid], prefix, cursor), sh.range, room);
    assert Keys(out) == Keys(entries)[..|out|];
  }

  /** What a shard adds to a page of which so many entries are filled. */
  method MoreFrom(sh: Shard, groups: map<Split.Gid, State>, prefix: Key, cursor: Key, filled: nat, max: nat) returns (more: seq<Entry>)
    requires sh.gid in groups && filled <= max <= 10000
    requires NoneBelow(sh.range, groups[sh.gid].latest.Keys)
    ensures if filled < max then IsPage(Keys(more), ShardKeys(sh, groups, prefix, cursor), max - filled) else more == []
    ensures forall i :: 0 <= i < |more| ==> sh.range.Contains(more[i].key) && Lookup(groups[sh.gid].latest, more[i].key) == Some(more[i].record)
  {
    if filled >= max { return []; }
    if Skipped(sh, prefix, cursor) { return []; }
    more := ListShard(sh, groups, prefix, cursor, max - filled);
  }

  /** The walk so far: a page of the shards passed, with their records. */
  ghost predicate Walked(shards: seq<Shard>, groups: map<Split.Gid, State>, prefix: Key, cursor: Key, i: nat, out: seq<Entry>, max: nat)
    requires IsShardList(shards, groups)
  {
    i <= |shards| && IsPage(Keys(out), Routed(shards[..i], groups, prefix, cursor), max) && IsRouted(out, shards, groups)
  }

  ghost predicate HasServer(e: Entry, shards: seq<Shard>, groups: map<Split.Gid, State>)
    requires IsShardList(shards, groups)
  {
    exists j :: ServedBy(e, shards, groups, j)
  }

  lemma RoutedJoin(out: seq<Entry>, more: seq<Entry>, shards: seq<Shard>, groups: map<Split.Gid, State>, i: nat)
    requires IsShardList(shards, groups) && IsRouted(out, shards, groups)
    requires forall j :: 0 <= j < |more| ==> ServedBy(more[j], shards, groups, i)
    ensures IsRouted(out + more, shards, groups)
  {
    var all := out + more;
    forall j | 0 <= j < |all| ensures HasServer(all[j], shards, groups) {
      if j < |out| {
        assert all[j] == out[j];
      } else {
        assert ServedBy(more[j - |out|], shards, groups, i);
      }
    }
  }

  lemma WalkStep(shards: seq<Shard>, groups: map<Split.Gid, State>, prefix: Key, cursor: Key, i: nat, out: seq<Entry>, more: seq<Entry>, max: nat)
    requires IsShardList(shards, groups) && i < |shards| && Walked(shards, groups, prefix, cursor, i, out, max)
    requires if |out| < max then IsPage(Keys(more), ShardKeys(shards[i], groups, prefix, cursor), max - |out|) else more == []
    requires forall j :: 0 <= j < |more| ==> shards[i].range.Contains(more[j].key) && Lookup(groups[shards[i].gid].latest, more[j].key) == Some(more[j].record)
    ensures Walked(shards, groups, prefix, cursor, i + 1, out + more, max)
  {
    var before, own := Routed(shards[..i], groups, prefix, cursor), ShardKeys(shards[i], groups, prefix, cursor);
    assert shards[..i + 1][..i] == shards[..i];
    assert Routed(shards[..i + 1], groups, prefix, cursor) == before + own;
    ShardsOrdered(shards, groups, prefix, cursor, i);
    assert Keys(out + more) == Keys(out) + Keys(more);
    RoutedJoin(out, more, shards, groups, i);
    if |out| < max {
      PagesJoin(Keys(out), Keys(more), before, own, max);
    } else {
      FullPageStays(Keys(out), before, own, max);
      assert Keys(out) + Keys(more) == Keys(out);
    }
  }

  /** The page and the cursor to continue from; no cursor when it is the last. */
  method ListTraced(shards: seq<Shard>, groups: map<Split.Gid, State>, prefix: Key, cursor: Key, limit: int)
    returns (out: seq<Entry>, next: Key)
    requires IsShardList(shards, groups) && NoKeysBelow(shards, groups)
    ensures IsPage(Keys(out), Routed(shards, groups, prefix, cursor), ClampLimit(limit))
    ensures IsRouted(out, shards, groups)
    ensures next == if |out| == ClampLimit(limit) then out[|out| - 1].key else []
  {
    var max := ClampLimit(limit);
    out := [];
    for i := 0 to |shards|
      invariant Walked(shards, groups, prefix, cursor, i, out, max)
    {
      var more := MoreFrom(shards[i], groups, prefix, cursor, |out|, max);
      WalkStep(shards, groups, prefix, cursor, i, out, more, max);
      out := out + more;
    }
    assert shards[..|shards|] == shards;
    next := if |out| == max then out[|out| - 1].key else [];
  }

  /** Such a page has as many entries as asked for, 1000 for a limit out of range, or as there are keys. */
  lemma TracedPageSize(out: seq<Entry>, keys: set<Key>, limit: int)
    requires IsPage(Keys(out), keys, ClampLimit(limit))
    ensures var max := if 1 <= limit <= 10000 then limit else 1000; |out| == if |keys| < max then |keys| else max
  {
    PageCount(Keys(out), keys, ClampLimit(limit));
  }

  // --- routed keys are the acknowledged ones ---------------------------------------------------------

  ghost predicate InMap(m: Split.Meta, s: Shard) {
    exists id :: id in m.shards && m.shards[id] == s
  }

  /** A listing of a run's state, by its own shard map. */
  ghost predicate ListsMap(shards: seq<Shard>, m: Split.Meta) {
    && (forall i :: 0 <= i < |shards| ==> InMap(m, shards[i]))
    && (forall id :: id in m.shards ==> m.shards[id] in shards)
  }

  ghost function TruthKeys(truth: map<Key, Record>, prefix: Key, cursor: Key): set<Key> {
    set k | k in truth && Wanted(k, prefix, cursor)
  }

  ghost predicate SameShard(m: Split.Meta, k: Key, l: Key) {
    exists id :: id in m.shards && m.shards[id].range.Contains(k) && m.shards[id].range.Contains(l)
  }

  /** What a cursor before the prefix adds: the keys between the two in the prefix's own shard. */
  ghost function StrayKeys(sys: Split.System, prefix: Key, cursor: Key): set<Key> {
    set k | k in sys.truth && cursor != [] && Less(cursor, k) && Less(k, prefix) && SameShard(sys.meta, k, prefix)
  }

  /** The cursors a caller is meant to pass add nothing; strays never carry the prefix. */
  lemma NoStrays(sys: Split.System, prefix: Key, cursor: Key)
    ensures cursor == [] || AtMost(prefix, cursor) ==> StrayKeys(sys, prefix, cursor) == {}
    ensures TruthKeys(sys.truth, prefix, cursor) !! StrayKeys(sys, prefix, cursor)
  {
    forall k | k in StrayKeys(sys, prefix, cursor) ensures Less(cursor, prefix) && !AtMost(prefix, cursor) && !HasPrefix(k, prefix) {
      LessTransitive(cursor, k, prefix);
      NotBothWays(k, prefix, prefix);
      NotBothWays(cursor, prefix, prefix);
      PrefixRange(k, prefix);
    }
  }

  /** One owned key: scanned in a shard that is not skipped, or not. */
  lemma ReachedIff(sh: Shard, k: Key, prefix: Key, cursor: Key)
    requires sh.range.Contains(k)
    ensures InLatestScan(k, prefix, cursor) && !Skipped(sh, prefix, cursor) <==>
            Wanted(k, prefix, cursor) || (cursor != [] && Less(cursor, k) && Less(k, prefix) && sh.range.Contains(prefix))
  {
    PrefixRange(k, prefix);
    LessTotal(k, prefix);
    if Skipped(sh, prefix, cursor) { SkippedHasNothing(sh, prefix, cursor, k); }
    if cursor != [] && Less(cursor, k) && Less(k, prefix) { BeforePrefix(sh, k, prefix, cursor); }
  }

  lemma BeforePrefix(sh: Shard, k: Key, prefix: Key, cursor: Key)
    requires sh.range.Contains(k) && cursor != [] && Less(cursor, k) && Less(k, prefix)
    ensures InLatestScan(k, prefix, cursor) && !HasPrefix(k, prefix)
    ensures Skipped(sh, prefix, cursor) <==> !sh.range.Contains(prefix)
  {
    PrefixRange(k, prefix);
    PrefixRange(prefix, prefix);
    NotBothWays(k, prefix, prefix);
    if UpperBound(prefix).Some? {
      LessTransitive(k, prefix, UpperBound(prefix).value);
      NotBothWays(k, UpperBound(prefix).value, UpperBound(prefix).value);
      if AtMost(UpperBound(prefix).value, sh.range.start) { NotBothWays(k, UpperBound(prefix).value, sh.range.start); }
    }
    AtMostAfter(sh.range.start, k, prefix);
    if sh.range.end != [] {
      LessTotal(sh.range.end, prefix);
      LessTransitive(cursor, k, sh.range.end);
      NotBothWays(cursor, sh.range.end, sh.range.end);
      if Less(prefix, sh.range.end) { NotBothWays(prefix, sh.range.end, sh.range.end); }
    }
  }

  lemma AtMostAfter(a: Key, b: Key, c: Key)
    requires AtMost(a, b) && AtMost(b, c)
    ensures AtMost(a, c)
  {
    if a != b && b != c { LessTransitive(a, b, c); }
  }

  /** In every reachable state of the split protocol no group holds keys below its shard. */
  lemma ReachableIsClippable(c: Config, run: seq<Split.System>, steps: seq<Split.Step>, i: nat, shards: seq<Shard>)
    requires Split.IsRun(c, run, steps) && i < |run| && ListsMap(shards, run[i].meta) && IsShardList(shards, run[i].groups)
    ensures NoKeysBelow(shards, run[i].groups)
  {
    forall j, k | 0 <= j < |shards| && k in run[i].groups[shards[j].gid].latest ensures AtMost(shards[j].range.start, k) {
      assert InMap(run[i].meta, shards[j]);
      var id :| id in run[i].meta.shards && run[i].meta.shards[id] == shards[j];
      SplitProof.NoKeyBelowItsShard(c, run, steps, i, id, k);
    }
  }

  /**
   At every moment of every run of the split protocol, what a listing routes
   to is exactly what the acknowledged writes left, and the strays of a cursor
   before the prefix.
   */
  lemma RoutedIsTruth(c: Config, run: seq<Split.System>, steps: seq<Split.Step>, i: nat, shards: seq<Shard>, prefix: Key, cursor: Key)
    requires Split.IsRun(c, run, steps) && i < |run| && ListsMap(shards, run[i].meta) && IsShardList(shards, run[i].groups)
    ensures Routed(shards, run[i].groups, prefix, cursor) == TruthKeys(run[i].truth, prefix, cursor) + StrayKeys(run[i], prefix, cursor)
  {
    SplitProof.RunInv(c, run, steps, i);
    forall k ensures k in Routed(shards, run[i].groups, prefix, cursor) <==> k in TruthKeys(run[i].truth, prefix, cursor) + StrayKeys(run[i], prefix, cursor) {
      if k in Routed(shards, run[i].groups, prefix, cursor) { RoutedWasAsked(run[i], shards, prefix, cursor, k); }
      if k in TruthKeys(run[i].truth, prefix, cursor) + StrayKeys(run[i], prefix, cursor) { AskedIsRouted(run[i], shards, prefix, cursor, k); }
    }
  }

  lemma RoutedWasAsked(sys: Split.System, shards: seq<Shard>, prefix: Key, cursor: Key, k: Key)
    requires Split.Inv(sys) && ListsMap(shards, sys.meta) && IsShardList(shards, sys.groups) && k in Routed(shards, sys.groups, prefix, cursor)
    ensures k in TruthKeys(sys.truth, prefix, cursor) + StrayKeys(sys, prefix, cursor)
  {
    RoutedHolds(shards, sys.groups, prefix, cursor, k);
    var j :| 0 <= j < |shards| && k in ShardKeys(shards[j], sys.groups, prefix, cursor);
    assert InMap(sys.meta, shards[j]);
    var id :| id in sys.meta.shards && sys.meta.shards[id] == shards[j];
    SplitProof.OwnerAgrees(sys, id, k);
    ReachedIff(shards[j], k, prefix, cursor);
  }

  lemma AskedIsRouted(sys: Split.System, shards: seq<Shard>, prefix: Key, cursor: Key, k: Key)
    requires Split.Inv(sys) && ListsMap(shards, sys.meta) && IsShardList(shards, sys.groups)
    requires k in TruthKeys(sys.truth, prefix, cursor) + StrayKeys(sys, prefix, cursor)
    ensures k in Routed(shards, sys.groups, prefix, cursor)
  {
    var id;
    if k in StrayKeys(sys, prefix, cursor) {
      id :| id in sys.meta.shards && sys.meta.shards[id].range.Contains(k) && sys.meta.shards[id].range.Contains(prefix);
    } else {
      id := SplitProof.OwnerExists(sys, k);
    }
    SplitProof.OwnerAgrees(sys, id, k);
    var j :| 0 <= j < |shards| && shards[j] == sys.meta.shards[id];
    ReachedIff(shards[j], k, prefix, cursor);
    assert k in ShardKeys(shards[j], sys.groups, prefix, cursor);
    RoutedHolds(shards, sys.groups, prefix, cursor, k);
  }

  /** The ids of a shard map in the order of an ordered list. */
  ghost predicate Lays(shards: seq<Shard>, ids: seq<Split.ShardId>, m: Split.Meta) {
    && |ids| == |shards|
    && (forall i :: 0 <= i < |ids| ==> ids[i] in m.shards && m.shards[ids[i]] == shards[i])
    && (forall i, j :: 0 <= i < j < |ids| ==> ids[i] != ids[j])
    && (forall i, j :: 0 <= i < j < |shards| ==> AtMost(shards[i].range.start, shards[j].range.start))
  }

  method LeastStart(shards: map<Split.ShardId, Shard>, todo: set<Split.ShardId>) returns (id: Split.ShardId)
    requires todo != {} && todo <= shards.Keys
    ensures id in todo && forall o :: o in todo ==> AtMost(shards[id].range.start, shards[o].range.start)
  {
    id :| id in todo;
    var rest := todo - {id};
    while rest != {}
      invariant rest <= todo && id in todo
      invariant forall o :: o in todo && o !in rest ==> AtMost(shards[id].range.start, shards[o].range.start)
    {
      var next: Split.ShardId :| next in rest;
      ghost var was := id;
      LessTotal(shards[id].range.start, shards[next].range.start);
      if Less(shards[next].range.start, shards[id].range.start) { id := next; }
      forall o | o in todo && o !in rest - {next} ensures AtMost(shards[id].range.start, shards[o].range.start) {
        if id == next && o != next { AtMostAfter(shards[id].range.start, shards[was].range.start, shards[o].range.start); }
      }
      rest := rest - {next};
    }
  }

  /** The shard map as a list ordered by range start. */
  method OrderShards(m: Split.Meta) returns (shards: seq<Shard>, ghost ids: seq<Split.ShardId>)
    ensures Lays(shards, ids, m) && forall id :: id in m.shards ==> id in ids
    ensures ListsMap(shards, m)
  {
    shards, ids := [], [];
    var todo := m.shards.Keys;
    while todo != {}
      invariant todo <= m.shards.Keys && Lays(shards, ids, m)
      invariant forall id :: id in m.shards <==> id in ids || id in todo
      invariant forall i :: 0 <= i < |ids| ==> ids[i] !in todo
      invariant forall i, id :: 0 <= i < |shards| && id in todo ==> AtMost(shards[i].range.start, m.shards[id].range.start)
    {
      var id := LeastStart(m.shards, todo);
      shards, ids, todo := shards + [m.shards[id]], ids + [id], todo - {id};
    }
    LaysLists(shards, ids, m);
  }

  lemma LaysLists(shards: seq<Shard>, ids: seq<Split.ShardId>, m: Split.Meta)
    requires Lays(shards, ids, m) && forall id :: id in m.shards ==> id in ids
    ensures ListsMap(shards, m)
  {
    forall id | id in m.shards ensures m.shards[id] in shards {
      var i :| 0 <= i < |ids| && ids[i] == id;
      assert shards[i] == m.shards[id];
    }
    forall i | 0 <= i < |shards| ensures InMap(m, shards[i]) {
      assert ids[i] in m.shards && m.shards[ids[i]] == shards[i];
    }
  }

  /** The list of a partition is a shard list: no key is owned twice. */
  lemma PartitionIsShardList(sys: Split.System, shards: seq<Shard>, ids: seq<Split.ShardId>)
    requires Split.Inv(sys) && Lays(shards, ids, sys.meta)
    ensures IsShardList(shards, sys.groups)
  {
    forall i | 0 <= i < |shards| ensures shards[i].gid in sys.groups { assert Split.ShardOk(sys, ids[i]); }
    forall i, j, k | 0 <= i < j < |shards| && shards[i].range.Contains(k) ensures !shards[j].range.Contains(k) {
      assert ids[i] != ids[j] && sys.meta.shards[ids[i]] == shards[i] && sys.meta.shards[ids[j]] == shards[j];
    }
  }

  /** A routed record is the acknowledged one. */
  lemma RoutedRecord(sys: Split.System, shards: seq<Shard>, e: Entry, j: int)
    requires Split.Inv(sys) && ListsMap(shards, sys.meta) && IsShardList(shards, sys.groups)
    requires ServedBy(e, shards, sys.groups, j)
    ensures Lookup(sys.truth, e.key) == Some(e.record)
  {
    assert InMap(sys.meta, shards[j]);
    var id :| id in sys.meta.shards && sys.meta.shards[id] == shards[j];
    SplitProof.OwnerAgrees(sys, id, e.key);
  }

  lemma RoutedRecords(sys: Split.System, shards: seq<Shard>, out: seq<Entry>)
    requires Split.Inv(sys) && ListsMap(shards, sys.meta) && IsShardList(shards, sys.groups) && IsRouted(out, shards, sys.groups)
    ensures forall j :: 0 <= j < |out| ==> Lookup(sys.truth, out[j].key) == Some(out[j].record)
  {
    forall j | 0 <= j < |out| ensures Lookup(sys.truth, out[j].key) == Some(out[j].record) {
      assert HasServer(out[j], shards, sys.groups);
      var o :| ServedBy(out[j], shards, sys.groups, o);
      RoutedRecord(sys, shards, out[j], o);
    }
  }

  /**
   A listing at any moment of any run of the split protocol, through the shard
   map of that moment: the next page of what the acknowledged writes left,
   with their records.
   */
  method ListAcknowledged(sys: Split.System, prefix: Key, cursor: Key, limit: int,
                          ghost c: Config, ghost run: seq<Split.System>, ghost steps: seq<Split.Step>, ghost i: nat)
    returns (out: seq<Entry>, next: Key)
    requires Split.IsRun(c, run, steps) && i < |run| && run[i] == sys
    ensures IsPage(Keys(out), TruthKeys(sys.truth, prefix, cursor) + StrayKeys(sys, prefix, cursor), ClampLimit(limit))
    ensures cursor == [] || AtMost(prefix, cursor) ==> IsPage(Keys(out), TruthKeys(sys.truth, prefix, cursor), ClampLimit(limit))
    ensures forall j :: 0 <= j < |out| ==> Lookup(sys.truth, out[j].key) == Some(out[j].record)
    ensures next == if |out| == ClampLimit(limit) then out[|out| - 1].key else []
  {
    SplitProof.RunInv(c, run, steps, i);
    ghost var ids;
    var shards;
    shards, ids := OrderShards(sys.meta);
    PartitionIsShardList(sys, shards, ids);
    ReachableIsClippable(c, run, steps, i, shards);
    out, next := ListTraced(shards, sys.groups, prefix, cursor, limit);
    ListedIsTruth(c, run, steps, i, shards, prefix, cursor);
    RoutedRecords(sys, shards, out);
  }

  lemma ListedIsTruth(c: Config, run: seq<Split.System>, steps: seq<Split.Step>, i: nat, shards: seq<Shard>, prefix: Key, cursor: Key)
    requires Split.IsRun(c, run, steps) && i < |run| && ListsMap(shards, run[i].meta) && IsShardList(shards, run[i].groups)
    ensures var all := Routed(shards, run[i].groups, prefix, cursor);
            && all == TruthKeys(run[i].truth, prefix, cursor) + StrayKeys(run[i], prefix, cursor)
            && (cursor == [] || AtMost(prefix, cursor) ==> all == TruthKeys(run[i].truth, prefix, cursor))
  {
    RoutedIsTruth(c, run, steps, i, shards, prefix, cursor);
    NoStrays(run[i], prefix, cursor);
  }

  // --- following the cursor -----------------------------------------------------------------------------

  lemma ScanAfter(k: Key, prefix: Key, cursor: Key, last: Key)
    requires last != [] && InLatestScan(last, prefix, cursor)
    ensures InLatestScan(k, prefix, last) <==> InLatestScan(k, prefix, cursor) && Less(last, k)
  {
    if Less(last, k) {
      if cursor != [] { LessTransitive(cursor, last, k); } else if prefix != last { LessTransitive(prefix, last, k); }
    }
  }

  lemma ShardAfter(sh: Shard, groups: map<Split.Gid, State>, prefix: Key, cursor: Key, last: Key)
    requires sh.gid in groups && last != [] && InLatestScan(last, prefix, cursor)
    ensures ShardKeys(sh, groups, prefix, last) == Bytes.After(ShardKeys(sh, groups, prefix, cursor), last)
  {
    forall k | k in groups[sh.gid].latest && sh.range.Contains(k) && Less(last, k) && InLatestScan(k, prefix, cursor)
      ensures Skipped(sh, prefix, last) <==> Skipped(sh, prefix, cursor)
    {
      if sh.range.end != [] {
        if AtMost(sh.range.end, last) { NotBothWays(k, sh.range.end, last); }
        if cursor != [] && AtMost(sh.range.end, cursor) { NotBothWays(k, sh.range.end, cursor); }
      }
    }
    forall k ensures InLatestScan(k, prefix, last) <==> InLatestScan(k, prefix, cursor) && Less(last, k) { ScanAfter(k, prefix, cursor, last); }
  }

  lemma {:induction false} RoutedAfter(shards: seq<Shard>, groups: map<Split.Gid, State>, prefix: Key, cursor: Key, last: Key)
    requires IsShardList(shards, groups) && last != [] && InLatestScan(last, prefix, cursor)
    ensures Routed(shards, groups, prefix, last) == Bytes.After(Routed(shards, groups, prefix, cursor), last)
    decreases |shards|
  {
    if shards != [] {
      RoutedAfter(shards[..|shards| - 1], groups, prefix, cursor, last);
      ShardAfter(shards[|shards| - 1], groups, prefix, cursor, last);
    }
  }

  /** Two pages in a row are one page: following cursors repeats and skips nothing. */
  lemma PagesFollow(shards: seq<Shard>, groups: map<Split.Gid, State>, prefix: Key, cursor: Key, first: seq<Key>, second: seq<Key>, limit: nat, more: nat)
    requires IsShardList(shards, groups) && limit > 0 && |first| == limit
    requires IsPage(first, Routed(shards, groups, prefix, cursor), limit)
    requires first[limit - 1] != [] && IsPage(second, Routed(shards, groups, prefix, first[limit - 1]), more)
    ensures IsPage(first + second, Routed(shards, groups, prefix, cursor), limit + more)
  {
    var last := first[limit - 1];
    assert last in first;
    RoutedHolds(shards, groups, prefix, cursor, last);
    RoutedAfter(shards, groups, prefix, cursor, last);
    PagesContinue(first, second, Routed(shards, groups, prefix, cursor), limit, more);
  }

  /** A cursor before the prefix: one shard, one live key in between, and it is listed. */
  lemma LowCursorWalksIn(shards: seq<Shard>, groups: map<Split.Gid, State>, g: State)
    requires |shards| == 1 && shards[0].gid == 1 && shards[0].range == Range([], []) && groups == map[1 := g] && g.latest == map[[97] := Record(1, [], false)]
    ensures IsShardList(shards, groups) && [97] in Routed(shards, groups, [98], [96]) && !HasPrefix([97], [98])
  {
    assert Less([96], [97]) && Less([97], [98]);
    assert shards[..0] == [];
    BeforePrefix(shards[0], [97], [98], [96]);
    assert [97] in g.latest;
  }

  /**
   Why no group may hold keys below its shard: one such key fills a page of
   one, is clipped, and hides the key the shard does own.
   */
  lemma KeyBelowLeavesAGap(g: State)
    requires g.latest.Keys == {[1], [5]}
    ensures IsPage([[1]], GroupKeys(g, [], []), 1)
    ensures !Range([5], []).Contains([1]) && [5] in Owned(Range([5], []), GroupKeys(g, [], []))
  {
    assert !Less([5], [1]) && Less([1], [5]);
    assert [1] in g.latest && [5] in g.latest;
    forall l | l in GroupKeys(g, [], []) && Less(l, [1]) ensures l in [[1]] { LessIrreflexive([1]); }
  }
}
