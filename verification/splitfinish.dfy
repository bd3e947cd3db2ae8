/**
 A split can always be finished. Whatever a crash left behind, a controller
 that starts over from the metadata can freeze, copy, flip and clean up, and
 ends with both halves owned, unfrozen and free of each other's keys.
 */
module SplitFinish {
  import opened Bytes
  import opened Layout
  import opened Kv
  import Mvcc
  import opened Scan
  import opened Machine
  import opened Split
  import opened SplitProof

  ghost predicate IsPath(c: Config, run: seq<System>, steps: seq<Step>) {
    && |run| == |steps| + 1
    && forall i :: 0 <= i < |steps| ==> Enabled(run[i], steps[i]) && run[i + 1] == Split.Next(c, run[i], steps[i])
  }

  /** A path from one system to another on which no acknowledged write changes. */
  ghost predicate Leads(c: Config, run: seq<System>, steps: seq<Step>, from: System, to: System) {
    IsPath(c, run, steps) && run[0] == from && run[|run| - 1] == to && to.truth == from.truth && Split.Inv(to)
  }

  ghost predicate Finished(sys: System) {
    sys.ctl.Idle? && sys.meta.cleanups == map[] && !AnySplitting(sys.meta)
  }

  lemma PathCons(c: Config, sys: System, step: Step, run: seq<System>, steps: seq<Step>, to: System)
    requires Enabled(sys, step) && Leads(c, run, steps, Split.Next(c, sys, step), to) && Split.Next(c, sys, step).truth == sys.truth
    ensures Leads(c, [sys] + run, [step] + steps, sys, to)
  {
    var r, t := [sys] + run, [step] + steps;
    forall i | 0 <= i < |t| ensures Enabled(r[i], t[i]) && r[i + 1] == Split.Next(c, r[i], t[i]) {
      if i > 0 { assert r[i] == run[i - 1] && t[i] == steps[i - 1] && r[i + 1] == run[i]; }
    }
  }

  // --- after the flip ----------------------------------------------------------------------

  lemma OneCleanup(m: Meta, gid: Gid)
    requires OneAtATime(m) && gid in m.cleanups
    ensures m.cleanups - {gid} == map[] && !AnySplitting(m)
  {
  }

  lemma Dropped(c: Config, sys: System) returns (end: System)
    requires OneAtATime(sys.meta) && sys.ctl.Cleaned? && sys.ctl.gid in sys.meta.cleanups
    ensures Enabled(sys, DropCleanup) && end == Split.Next(c, sys, DropCleanup) && Finished(end)
    ensures end.truth == sys.truth && end.meta.shards == sys.meta.shards
  {
    OneCleanup(sys.meta, sys.ctl.gid);
    end := Split.Next(c, sys, DropCleanup);
  }

  lemma Here(c: Config, sys: System)
    requires Split.Inv(sys)
    ensures Leads(c, [sys], [], sys, sys)
  {
  }

  lemma FinishCleaned(c: Config, sys: System) returns (run: seq<System>, steps: seq<Step>, end: System)
    requires Split.Inv(sys) && sys.ctl.Cleaned?
    ensures Leads(c, run, steps, sys, end) && Finished(end) && end.meta.shards == sys.meta.shards
  {
    end := Dropped(c, sys);
    StepInv(c, sys, DropCleanup);
    Here(c, end);
    PathCons(c, sys, DropCleanup, [end], [], end);
    run, steps := [sys] + [end], [DropCleanup] + [];
  }

  lemma SourceExists(sys: System, gid: Gid)
    requires Split.Inv(sys) && gid in sys.meta.cleanups
    ensures gid in sys.groups
  {
    assert HasSource(sys.meta, gid);
    var id :| CutAt(sys.meta, id, gid);
    assert ShardOk(sys, id);
  }

  lemma FinishPending(c: Config, sys: System, n: nat) returns (run: seq<System>, steps: seq<Step>, end: System)
    requires Split.Inv(sys) && sys.ctl.Idle? && sys.meta.cleanups != map[]
    ensures Leads(c, run, steps, sys, end) && Finished(end) && end.meta.shards == sys.meta.shards
  {
    var gid :| gid in sys.meta.cleanups;
    SourceExists(sys, gid);
    var step := Cleanup(gid, n);
    StepInv(c, sys, step);
    run, steps, end := FinishCleaned(c, Split.Next(c, sys, step));
    PathCons(c, sys, step, run, steps, end);
    run, steps := [sys] + run, [step] + steps;
  }

  /** Shard id was cut at its split key: the old group keeps the lower half, the new one has the upper. */
  ghost predicate WasCut(was: Shard, id: ShardId, m: Meta)
    requires was.state.Splitting?
  {
    && id in m.shards && m.shards[id] == Shard(Lower(was.range, was.state.key), was.gid, Active)
    && exists u :: u in m.shards && m.shards[u] == Shard(Upper(was.range, was.state.key), was.state.newGid, Active)
  }

  lemma FinishNumbered(c: Config, sys: System, n: nat) returns (run: seq<System>, steps: seq<Step>, end: System)
    requires Split.Inv(sys) && sys.ctl.Numbered?
    ensures Leads(c, run, steps, sys, end) && Finished(end) && WasCut(sys.meta.shards[sys.ctl.id], sys.ctl.id, end.meta)
  {
    StepInv(c, sys, Flip);
    var flipped := Split.Next(c, sys, Flip);
    var s := sys.meta.shards[sys.ctl.id];
    assert s.gid in flipped.meta.cleanups;
    assert flipped.meta.shards[sys.ctl.upper] == Shard(Upper(s.range, s.state.key), s.state.newGid, Active);
    run, steps, end := FinishPending(c, flipped, n);
    PathCons(c, sys, Flip, run, steps, end);
    run, steps := [sys] + run, [Flip] + steps;
  }

  lemma FinishCopied(c: Config, sys: System, n: nat) returns (run: seq<System>, steps: seq<Step>, end: System)
    requires Split.Inv(sys) && sys.ctl.Copied?
    ensures Leads(c, run, steps, sys, end) && Finished(end) && WasCut(sys.meta.shards[sys.ctl.id], sys.ctl.id, end.meta)
  {
    StepInv(c, sys, AllocateShard);
    run, steps, end := FinishNumbered(c, Split.Next(c, sys, AllocateShard), n);
    PathCons(c, sys, AllocateShard, run, steps, end);
    run, steps := [sys] + run, [AllocateShard] + steps;
  }

  // --- the copy ----------------------------------------------------------------------------

  /** There is always a next page to fetch. */
  lemma {:induction false} EntriesOf(s: State, q: seq<Key>) returns (out: seq<Entry>)
    requires forall k :: k in q ==> k in s.latest
    ensures Keys(out) == q && forall i :: 0 <= i < |out| ==> Lookup(s.latest, out[i].key) == Some(out[i].record)
    decreases |q|
  {
    if q == [] {
      out := [];
    } else {
      var init, last := q[..|q| - 1], q[|q| - 1];
      assert last in q;
      out := EntriesOf(s, init);
      out := out + [Entry(last, s.latest[last])];
      assert q == init + [last];
    }
  }

  lemma PageExists(g: State, range: Range, cursor: Key) returns (page: seq<Entry>)
    ensures IsRangeListing(page, g, range, cursor, COPY_PAGE)
  {
    var keys := RangeKeys(g, range, cursor);
    var q := Sorted(keys);
    TakeIsPage(q, keys, COPY_PAGE);
    page := EntriesOf(g, if |q| <= COPY_PAGE then q else q[..COPY_PAGE]);
  }

  /** What the copy still has ahead of its cursor. */
  ghost function Ahead(sys: System): set<Key>
    requires sys.ctl.Copying? && OnSplit(sys, sys.ctl.id)
  {
    var s := sys.meta.shards[sys.ctl.id];
    RangeKeys(sys.groups[s.gid], Moving(s), sys.ctl.cursor)
  }

  lemma ListKeepsLatest(c: Config, s: State, n: nat, range: Range, cursor: Key)
    ensures Kv.Apply(c, s, n, ListRange(range, cursor, COPY_PAGE)).latest == s.latest
  {
    Mvcc.ApplyShape(c, s, n, ListRange(range, cursor, COPY_PAGE));
  }

  /** A full page moves the cursor past its own keys. */
  lemma LessAhead(g: State, range: Range, cursor: Key, page: seq<Entry>)
    requires IsRangeListing(page, g, range, cursor, COPY_PAGE) && page != [] && page[|page| - 1].key != []
    ensures |RangeKeys(g, range, page[|page| - 1].key)| < |RangeKeys(g, range, cursor)|
  {
    var last := page[|page| - 1].key;
    var keys, next := RangeKeys(g, range, cursor), RangeKeys(g, range, last);
    assert Keys(page)[|page| - 1] == last && last in Keys(page) && last in keys;
    LessIrreflexive(last);
    forall k | k in next ensures k in keys { if cursor != [] { LessTransitive(cursor, last, k); } }
    assert last !in next;
    SubsetSize(next, keys - {last});
  }

  lemma MovingKey(s: Shard, k: Key)
    requires s.state.Splitting? && StrictlyInside(s.range, s.state.key) && Moving(s).Contains(k)
    ensures k != []
  {
  }

  lemma {:induction false} FinishCopying(c: Config, sys: System, n: nat) returns (run: seq<System>, steps: seq<Step>, end: System)
    requires Split.Inv(sys) && sys.ctl.Copying? && sys.ctl.done == |sys.ctl.page| && OnSplit(sys, sys.ctl.id)
    ensures Leads(c, run, steps, sys, end) && Finished(end) && WasCut(sys.meta.shards[sys.ctl.id], sys.ctl.id, end.meta)
    decreases |Ahead(sys)|
  {
    var s := sys.meta.shards[sys.ctl.id];
    var page := PageExists(sys.groups[s.gid], Moving(s), sys.ctl.cursor);
    var fetch := FetchPage(n, page);
    StepInv(c, sys, fetch);
    var fetched := Split.Next(c, sys, fetch);
    if page == [] {
      run, steps, end := FinishCopied(c, fetched, n);
    } else {
      run, steps, end := FinishPage(c, sys, n, page);
    }
    PathCons(c, sys, fetch, run, steps, end);
    run, steps := [sys] + run, [fetch] + steps;
  }

  /** One page in hand: copy it whole, and go on behind it. */
  lemma {:induction false} FinishPage(c: Config, sys: System, n: nat, page: seq<Entry>) returns (run: seq<System>, steps: seq<Step>, end: System)
    requires Split.Inv(sys) && sys.ctl.Copying? && sys.ctl.done == |sys.ctl.page| && OnSplit(sys, sys.ctl.id) && page != []
    requires Enabled(sys, FetchPage(n, page))
    ensures Leads(c, run, steps, Split.Next(c, sys, FetchPage(n, page)), end) && Finished(end)
    ensures WasCut(sys.meta.shards[sys.ctl.id], sys.ctl.id, end.meta)
    decreases |Ahead(sys)|, 0
  {
    var fetched, copy := Split.Next(c, sys, FetchPage(n, page)), CopyBatch(n, |page|);
    var copied := PageCopied(c, sys, n, page);
    if copied.ctl.Copied? {
      run, steps, end := FinishCopied(c, copied, n);
    } else {
      AheadShrinks(c, sys, n, page);
      run, steps, end := FinishCopying(c, copied, n);
    }
    PathCons(c, fetched, copy, run, steps, end);
    run, steps := [fetched] + run, [copy] + steps;
  }

  /** Fetching a page and copying it in one batch. */
  lemma PageCopied(c: Config, sys: System, n: nat, page: seq<Entry>) returns (copied: System)
    requires Split.Inv(sys) && sys.ctl.Copying? && OnSplit(sys, sys.ctl.id) && page != [] && Enabled(sys, FetchPage(n, page))
    ensures var fetched := Split.Next(c, sys, FetchPage(n, page));
            Enabled(fetched, CopyBatch(n, |page|)) && copied == Split.Next(c, fetched, CopyBatch(n, |page|)) && fetched.truth == copied.truth == sys.truth
    ensures Split.Inv(copied) && copied.meta == sys.meta && OnSplit(copied, sys.ctl.id)
    ensures copied.ctl == Copied(sys.ctl.id) || copied.ctl == Copying(sys.ctl.id, page[|page| - 1].key, page, |page|)
  {
    var fetched := PageFetched(c, sys, n, page);
    copied := PageBatched(c, fetched, n);
  }

  lemma PageFetched(c: Config, sys: System, n: nat, page: seq<Entry>) returns (fetched: System)
    requires Split.Inv(sys) && sys.ctl.Copying? && OnSplit(sys, sys.ctl.id) && page != [] && Enabled(sys, FetchPage(n, page))
    ensures fetched == Split.Next(c, sys, FetchPage(n, page)) && Split.Inv(fetched) && fetched.meta == sys.meta && fetched.truth == sys.truth
    ensures OnSplit(fetched, sys.ctl.id) && fetched.ctl == Copying(sys.ctl.id, sys.ctl.cursor, page, 0)
  {
    StepInv(c, sys, FetchPage(n, page));
    fetched := Split.Next(c, sys, FetchPage(n, page));
  }

  lemma PageBatched(c: Config, sys: System, n: nat) returns (copied: System)
    requires Split.Inv(sys) && sys.ctl.Copying? && OnSplit(sys, sys.ctl.id) && sys.ctl.done == 0 && sys.ctl.page != []
    ensures var page := sys.ctl.page; Enabled(sys, CopyBatch(n, |page|)) && copied == Split.Next(c, sys, CopyBatch(n, |page|))
    ensures Split.Inv(copied) && copied.meta == sys.meta && copied.truth == sys.truth && OnSplit(copied, sys.ctl.id)
    ensures var page := sys.ctl.page;
            copied.ctl == Copied(sys.ctl.id) || copied.ctl == Copying(sys.ctl.id, page[|page| - 1].key, page, |page|)
  {
    StepInv(c, sys, CopyBatch(n, |sys.ctl.page|));
    copied := Split.Next(c, sys, CopyBatch(n, |sys.ctl.page|));
  }

  lemma AheadShrinks(c: Config, sys: System, n: nat, page: seq<Entry>)
    requires Split.Inv(sys) && sys.ctl.Copying? && sys.ctl.done == |sys.ctl.page| && OnSplit(sys, sys.ctl.id) && page != []
    requires Enabled(sys, FetchPage(n, page)) && Enabled(Split.Next(c, sys, FetchPage(n, page)), CopyBatch(n, |page|))
    requires Split.Next(c, Split.Next(c, sys, FetchPage(n, page)), CopyBatch(n, |page|)).ctl.Copying?
    ensures var copied := Split.Next(c, Split.Next(c, sys, FetchPage(n, page)), CopyBatch(n, |page|));
            OnSplit(copied, copied.ctl.id) && |Ahead(copied)| < |Ahead(sys)|
  {
    var s := sys.meta.shards[sys.ctl.id];
    ListKeepsLatest(c, sys.groups[s.gid], n, Moving(s), sys.ctl.cursor);
    assert Keys(page)[|page| - 1] in RangeKeys(sys.groups[s.gid], Moving(s), sys.ctl.cursor);
    MovingKey(s, page[|page| - 1].key);
    LessAhead(sys.groups[s.gid], Moving(s), sys.ctl.cursor, page);
  }

  // --- from anywhere -------------------------------------------------------------------------

  lemma FinishSplitting(c: Config, sys: System, id: ShardId, n: nat) returns (run: seq<System>, steps: seq<Step>, end: System)
    requires Split.Inv(sys) && sys.ctl.Idle? && id in sys.meta.shards && sys.meta.shards[id].state.Splitting?
    ensures Leads(c, run, steps, sys, end) && Finished(end) && WasCut(sys.meta.shards[id], id, end.meta)
  {
    assert ShardOk(sys, id);
    assert AnySplitting(sys.meta);
    var step := Freeze(id, n);
    StepInv(c, sys, step);
    run, steps, end := FinishCopying(c, Split.Next(c, sys, step), n);
    PathCons(c, sys, step, run, steps, end);
    run, steps := [sys] + run, [step] + steps;
  }

  /** Crash, and start over from the metadata. */
  lemma FinishFrom(c: Config, sys: System, n: nat) returns (run: seq<System>, steps: seq<Step>, end: System)
    requires Split.Inv(sys)
    ensures Leads(c, run, steps, sys, end) && Finished(end)
    ensures forall id :: id in sys.meta.shards && sys.meta.shards[id].state.Splitting? ==> WasCut(sys.meta.shards[id], id, end.meta)
  {
    StepInv(c, sys, Crash);
    var idle := Split.Next(c, sys, Crash);
    if id :| id in idle.meta.shards && idle.meta.shards[id].state.Splitting? {
      run, steps, end := FinishSplitting(c, idle, id, n);
    } else if idle.meta.cleanups != map[] {
      run, steps, end := FinishPending(c, idle, n);
    } else {
      run, steps, end := [idle], [], idle;
      Here(c, idle);
    }
    PathCons(c, sys, Crash, run, steps, end);
    run, steps := [sys] + run, [Crash] + steps;
  }

  /**
   From every state a run can reach, in particular after a crash at any point,
   the split in flight can be finished without any acknowledged write
   changing: the shard that was splitting is cut in two at its key.
   */
  lemma SplitCanFinish(c: Config, run: seq<System>, steps: seq<Step>, i: nat, n: nat) returns (more: seq<System>, rest: seq<Step>, end: System)
    requires IsRun(c, run, steps) && i < |run|
    ensures Leads(c, more, rest, run[i], end) && Finished(end)
    ensures var m := run[i].meta; forall id :: id in m.shards && m.shards[id].state.Splitting? ==> WasCut(m.shards[id], id, end.meta)
  {
    RunInv(c, run, steps, i);
    more, rest, end := FinishFrom(c, run[i], n);
  }

  /** What finished means: no group is frozen, and each holds its own range's acknowledged records and nothing else. */
  lemma FinishedIsClean(sys: System, id: ShardId, k: Key)
    requires Split.Inv(sys) && Finished(sys) && id in sys.meta.shards
    ensures var s := sys.meta.shards[id];
            && s.gid in sys.groups && sys.groups[s.gid].freeze.None?
            && Lookup(sys.groups[s.gid].latest, k) == if s.range.Contains(k) then Lookup(sys.truth, k) else None
  {
    assert ShardOk(sys, id);
  }
}
