/**
 The live shard split: begin, replicated freeze, paged copy, atomic map flip,
 then unfreeze and delete. A controller performs the steps one proposal at a
 time and may crash between any two; clients keep writing to both groups.

 Every group runs the state machine of module Kv. `truth` is the outcome of
 the acknowledged writes alone, as one plain map.
 */
module Split {
  import opened Bytes
  import opened Layout
  import opened Kv
  import opened Mvcc
  import opened Scan
  import opened Machine

  type Gid = nat

  type ShardId = nat

  datatype SplitState = Active | Splitting(key: Key, newGid: Gid)

  /** One entry of the shard map: a key range and the group that owns it. */
  datatype Shard = Shard(range: Range, gid: Gid, state: SplitState)

  /** The metadata the controller works from. */
  datatype Meta = Meta(shards: map<ShardId, Shard>, cleanups: map<Gid, Range>, nextGid: Gid, nextShard: ShardId)

  /** What a controller holds between two proposals; a crash loses it. */
  datatype Controller =
    | Idle
    | Created(id: ShardId, key: Key, newGid: Gid)
    | Copying(id: ShardId, cursor: Key, page: seq<Entry>, done: nat)
    | Copied(id: ShardId)
    | Numbered(id: ShardId, upper: ShardId)
    | Cleaned(gid: Gid)

  datatype System = System(meta: Meta, groups: map<Gid, State>, truth: map<Key, Record>, ctl: Controller)

  const ROOT: Key := [47]

  const COPY_PAGE: nat := 500

  const INIT := System(
    Meta(map[1 := Shard(Range(ROOT, []), 2, Active)], map[], 3, 2),
    map[2 := EMPTY], map[], Idle)

  // --- ranges -----------------------------------------------------------------------

  predicate StrictlyInside(range: Range, key: Key) {
    Less(range.start, key) && (range.end == [] || Less(key, range.end))
  }

  function Lower(range: Range, key: Key): Range {
    Range(range.start, key)
  }

  function Upper(range: Range, key: Key): Range {
    Range(key, range.end)
  }

  /** A strictly inner key cuts a range into two that share nothing. */
  lemma CutRange(range: Range, key: Key, k: Key)
    requires StrictlyInside(range, key)
    ensures range.Contains(k) <==> Lower(range, key).Contains(k) || Upper(range, key).Contains(k)
    ensures !(Lower(range, key).Contains(k) && Upper(range, key).Contains(k))
  {
    LessTotal(k, key);
    LessIrreflexive(k);
    if Less(k, key) {
      if range.end != [] { LessTransitive(k, key, range.end); }
      if Less(key, k) { LessTransitive(k, key, k); }
    } else {
      if k == key { } else { LessTransitive(range.start, key, k); }
    }
  }

  // --- client commands ----------------------------------------------------------------

  predicate IsClient(op: Op) {
    op.Set? || op.Delete? || op.DeleteRange? || op.TxApply? || op.Get? || op.GetAt? || op.ListAt? || op.ListRange? || op.Unknown?
  }

  predicate Touches(op: Op, k: Key) {
    match op
    case Set(key, _, _) => key == k
    case Delete(key) => key == k
    case DeleteRange(a, b) => AtMost(a, k) && Less(k, b)
    case TxApply(_, ws) => exists i :: 0 <= i < |ws| && ws[i].key == k
    case _ => false
  }

  /** A plain map after a list of writes at revision n. */
  function WriteMap(m: map<Key, Record>, n: nat, ws: seq<TxWrite>): map<Key, Record>
    decreases |ws|
  {
    if ws == [] then m
    else
      var rest, w := WriteMap(m, n, ws[..|ws| - 1]), ws[|ws| - 1];
      if w.delete then rest - {w.key} else rest[w.key := Record(n, w.value, w.blob)]
  }

  /** What an acknowledged command means to its client. */
  function Meaning(m: map<Key, Record>, n: nat, op: Op): map<Key, Record> {
    match op
    case Set(key, value, blob) => m[key := Record(n, value, blob)]
    case Delete(key) => m - {key}
    case DeleteRange(a, b) => map k | k in m && !(AtMost(a, k) && Less(k, b)) :: m[k]
    case TxApply(_, ws) => WriteMap(m, n, ws)
    case _ => m
  }

  lemma {:induction false} WriteMapLast(m: map<Key, Record>, n: nat, ws: seq<TxWrite>, k: Key)
    ensures var w := LastWrite(ws, k);
            Lookup(WriteMap(m, n, ws), k) ==
            if w.None? then Lookup(m, k)
            else if w.value.delete then None
            else Some(Record(n, w.value.value, w.value.blob))
    decreases |ws|
  {
    if ws != [] { WriteMapLast(m, n, ws[..|ws| - 1], k); }
  }

  lemma {:induction false} LastWriteTouches(ws: seq<TxWrite>, k: Key)
    ensures LastWrite(ws, k).Some? <==> exists i :: 0 <= i < |ws| && ws[i].key == k
    decreases |ws|
  {
    if ws != [] {
      LastWriteTouches(ws[..|ws| - 1], k);
      assert forall i :: 0 <= i < |ws| - 1 ==> ws[..|ws| - 1][i] == ws[i];
      if ws[|ws| - 1].key == k { }
    }
  }

  lemma {:induction false} LastWriteDeletes(q: seq<Key>, k: Key)
    ensures LastWrite(Deletes(q), k) == if k in q then Some(DeleteOf(k)) else None
    decreases |q|
  {
    if q != [] {
      var init := q[..|q| - 1];
      LastWriteDeletes(init, k);
      assert Deletes(q)[..|q| - 1] == Deletes(init);
      assert q == init + [q[|q| - 1]];
    }
  }

  /** Nothing in a frozen range is touched by an accepted command. */
  lemma AcceptedNotFrozen(c: Config, s: State, op: Op, k: Key)
    requires IsClient(op) && Rejection(c, s, op).None? && Touches(op, k)
    ensures !Frozen(s, k)
  {
    match op
    case DeleteRange(a, b) =>
      if Frozen(s, k) {
        var fr := s.freeze.value;
        if a != k { LessTransitive(a, k, b); }
        if fr.start != k { LessTransitive(fr.start, k, b); }
        if fr.end != [] && a != k { LessTransitive(a, k, fr.end); }
      }
    case _ =>
  }

  /** What one client command does to one key of a group. */
  lemma ClientLatest(c: Config, s: State, n: nat, op: Op, k: Key)
    requires IsClient(op)
    ensures var t := Apply(c, s, n, op);
            if Rejection(c, s, op).None? && Touches(op, k)
            then !Frozen(s, k) && (Lookup(t.latest, k) == Lookup(Meaning(s.latest, n, op), k))
            else Lookup(t.latest, k) == Lookup(s.latest, k)
    ensures Apply(c, s, n, op).freeze == s.freeze
  {
    ApplyFreeze(c, s, n, op);
    EntryLatest(c, s, n, op, k);
    if Rejection(c, s, op).None? {
      if Touches(op, k) { AcceptedNotFrozen(c, s, op, k); }
      match op
      case TxApply(_, ws) => WriteMapLast(s.latest, n, ws, k); LastWriteTouches(ws, k);
      case DeleteRange(a, b) => LastWriteDeletes(Sorted(set l | l in s.latest && AtMost(a, l) && Less(l, b)), k);
      case Set(key, value, blob) => LastWriteTouches(WritesOf(s, op), k); assert WritesOf(s, op)[0].key == key;
      case Delete(key) => LastWriteDeletes([key], k); assert Deletes([key]) == WritesOf(s, op);
      case _ =>
    }
  }

  lemma ApplyFreeze(c: Config, s: State, n: nat, op: Op)
    ensures Apply(c, s, n, op).freeze ==
            if op.FreezeRange? then Some(op.range)
            else if op.SplitCleanup? && s.freeze == Some(op.range) then None
            else s.freeze
  {
    ApplyPrunes(c, s, n, op);
    if Rejection(c, s, op).None? { AcceptedFreeze(s, n, op); }
  }

  lemma AcceptedFreeze(s: State, n: nat, op: Op)
    ensures Accepted(s, n, op).freeze ==
            if op.FreezeRange? then Some(op.range)
            else if op.SplitCleanup? && s.freeze == Some(op.range) then None
            else s.freeze
  {
    StageFrame(s, n, WritesOf(s, op));
  }

  /** A command means the same on any two maps that agree on a key. */
  lemma MeaningLocal(a: map<Key, Record>, b: map<Key, Record>, n: nat, op: Op, k: Key)
    requires Lookup(a, k) == Lookup(b, k)
    ensures Lookup(Meaning(a, n, op), k) == Lookup(Meaning(b, n, op), k)
    ensures !Touches(op, k) ==> Lookup(Meaning(a, n, op), k) == Lookup(a, k)
  {
    if op.TxApply? {
      WriteMapLast(a, n, op.writes, k);
      WriteMapLast(b, n, op.writes, k);
      LastWriteTouches(op.writes, k);
    }
  }

  // --- controller commands -----------------------------------------------------------

  lemma CopyInLatest(c: Config, s: State, n: nat, pairs: map<Key, Record>)
    ensures Apply(c, s, n, CopyIn(pairs)).latest == s.latest + pairs
  {
  }

  lemma CleanupLatest(c: Config, s: State, n: nat, range: Range, k: Key)
    ensures Lookup(Apply(c, s, n, SplitCleanup(range)).latest, k) == if range.Contains(k) then None else Lookup(s.latest, k)
  {
    var op := SplitCleanup(range);
    EntryLatest(c, s, n, op, k);
    LastWriteDeletes(Sorted(set l | l in s.latest && range.Contains(l)), k);
  }

  lemma QuietLatest(c: Config, s: State, n: nat, op: Op)
    requires op.FreezeRange? || op.ListRange?
    ensures Apply(c, s, n, op).latest == s.latest
  {
  }

  // --- steps ----------------------------------------------------------------------------

  datatype Step =
    | Client(gid: Gid, n: nat, op: Op)
    | CreateGroup(id: ShardId, key: Key)
    | MarkSplitting
    | Freeze(id: ShardId, n: nat)
    | FetchPage(n: nat, page: seq<Entry>)
    | CopyBatch(n: nat, size: nat)
    | AllocateShard
    | Flip
    | Cleanup(gid: Gid, n: nat)
    | DropCleanup
    | Crash

  function Moving(s: Shard): Range
    requires s.state.Splitting?
  {
    Upper(s.range, s.state.key)
  }

  function PairsOf(page: seq<Entry>): map<Key, Record>
    decreases |page|
  {
    if page == [] then map[] else PairsOf(page[..|page| - 1])[page[|page| - 1].key := page[|page| - 1].record]
  }

  ghost predicate AnySplitting(m: Meta) {
    exists id :: id in m.shards && m.shards[id].state.Splitting?
  }

  /**
   Where a router may send a write of k: by the current map, or, until the
   source group has applied split_cleanup, by the map before the flip.
   */
  ghost predicate RoutedKey(sys: System, gid: Gid, k: Key) {
    || (exists id :: id in sys.meta.shards && sys.meta.shards[id].gid == gid && sys.meta.shards[id].range.Contains(k))
    || (gid in sys.meta.cleanups && sys.meta.cleanups[gid].Contains(k)
        && gid in sys.groups && sys.groups[gid].freeze == Some(sys.meta.cleanups[gid]))
  }

  /** The shard a controller in mid-split is working on. */
  ghost predicate OnSplit(sys: System, id: ShardId) {
    && id in sys.meta.shards && sys.meta.shards[id].state.Splitting?
    && sys.meta.shards[id].gid in sys.groups && sys.meta.shards[id].state.newGid in sys.groups
  }

  ghost predicate Enabled(sys: System, step: Step) {
    match step
    case Client(gid, _, op) => gid in sys.groups && IsClient(op) && forall k :: Touches(op, k) ==> RoutedKey(sys, gid, k)
    case CreateGroup(id, key) =>
      sys.ctl.Idle? && sys.meta.cleanups == map[] && !AnySplitting(sys.meta) &&
      id in sys.meta.shards && StrictlyInside(sys.meta.shards[id].range, key)
    case MarkSplitting => sys.ctl.Created? && sys.ctl.id in sys.meta.shards
    case Freeze(id, _) => sys.ctl.Idle? && sys.meta.cleanups == map[] && OnSplit(sys, id)
    case FetchPage(_, page) =>
      sys.ctl.Copying? && OnSplit(sys, sys.ctl.id) && sys.ctl.done == |sys.ctl.page| &&
      var s := sys.meta.shards[sys.ctl.id];
      IsRangeListing(page, sys.groups[s.gid], Moving(s), sys.ctl.cursor, COPY_PAGE)
    case CopyBatch(_, size) =>
      sys.ctl.Copying? && OnSplit(sys, sys.ctl.id) && 0 < size && sys.ctl.done + size <= |sys.ctl.page|
    case AllocateShard => sys.ctl.Copied?
    case Flip => sys.ctl.Numbered? && OnSplit(sys, sys.ctl.id)
    case Cleanup(gid, _) => sys.ctl.Idle? && gid in sys.meta.cleanups && gid in sys.groups
    case DropCleanup => sys.ctl.Cleaned?
    case Crash => true
  }

  ghost function Propose(c: Config, sys: System, gid: Gid, n: nat, op: Op): System
    requires gid in sys.groups
  {
    sys.(groups := sys.groups[gid := Apply(c, sys.groups[gid], n, op)])
  }

  /** A page is copied batch by batch; a short page ends the copy. */
  function AfterBatch(ctl: Controller, done: nat): Controller
    requires ctl.Copying? && 0 < done <= |ctl.page|
  {
    if done < |ctl.page| then ctl.(done := done)
    else if |ctl.page| < COPY_PAGE then Copied(ctl.id)
    else Copying(ctl.id, ctl.page[|ctl.page| - 1].key, ctl.page, done)
  }

  ghost function Next(c: Config, sys: System, step: Step): System
    requires Enabled(sys, step)
  {
    var m := sys.meta;
    match step
    case Client(gid, n, op) =>
      Propose(c, sys, gid, n, op).(
        truth := if Rejection(c, sys.groups[gid], op).None? then Meaning(sys.truth, n, op) else sys.truth)
    case CreateGroup(id, key) =>
      sys.(groups := sys.groups[m.nextGid := EMPTY], meta := m.(nextGid := m.nextGid + 1), ctl := Created(id, key, m.nextGid))
    case MarkSplitting =>
      var id := sys.ctl.id;
      sys.(meta := m.(shards := m.shards[id := m.shards[id].(state := Splitting(sys.ctl.key, sys.ctl.newGid))]), ctl := Idle)
    case Freeze(id, n) =>
      Propose(c, sys, m.shards[id].gid, n, FreezeRange(Moving(m.shards[id]))).(ctl := Copying(id, [], [], 0))
    case FetchPage(n, page) =>
      var s := m.shards[sys.ctl.id];
      Propose(c, sys, s.gid, n, ListRange(Moving(s), sys.ctl.cursor, COPY_PAGE)).(
        ctl := if page == [] then Copied(sys.ctl.id) else Copying(sys.ctl.id, sys.ctl.cursor, page, 0))
    case CopyBatch(n, size) =>
      var batch := sys.ctl.page[sys.ctl.done..sys.ctl.done + size];
      Propose(c, sys, m.shards[sys.ctl.id].state.newGid, n, CopyIn(PairsOf(batch))).(ctl := AfterBatch(sys.ctl, sys.ctl.done + size))
    case AllocateShard => sys.(meta := m.(nextShard := m.nextShard + 1), ctl := Numbered(sys.ctl.id, m.nextShard))
    case Flip =>
      var id := sys.ctl.id;
      var s := m.shards[id];
      var upper := Shard(Upper(s.range, s.state.key), s.state.newGid, Active);
      var lower := Shard(Lower(s.range, s.state.key), s.gid, Active);
      sys.(meta := m.(shards := m.shards[sys.ctl.upper := upper][id := lower], cleanups := m.cleanups[s.gid := Moving(s)]), ctl := Idle)
    case Cleanup(gid, n) => Propose(c, sys, gid, n, SplitCleanup(m.cleanups[gid])).(ctl := Cleaned(gid))
    case DropCleanup => sys.(meta := m.(cleanups := m.cleanups - {sys.ctl.gid}), ctl := Idle)
    case Crash => sys.(ctl := Idle)
  }

  /** Runs: any interleaving of enabled steps, from the bootstrap state. */
  ghost predicate IsRun(c: Config, run: seq<System>, steps: seq<Step>) {
    && |run| == |steps| + 1 && run[0] == INIT
    && forall i :: 0 <= i < |steps| ==> Enabled(run[i], steps[i]) && run[i + 1] == Next(c, run[i], steps[i])
  }

  // --- the invariant ---------------------------------------------------------------------

  ghost predicate Covered(m: Meta, k: Key) {
    exists id :: id in m.shards && m.shards[id].range.Contains(k)
  }

  /** The shard map partitions the keyspace from "/" upward, one group each. */
  ghost predicate Partition(m: Meta) {
    && (forall k {:trigger Covered(m, k)} :: AtMost(ROOT, k) ==> Covered(m, k))
    && (forall i, j, k :: i in m.shards && j in m.shards && m.shards[i].range.Contains(k) && m.shards[j].range.Contains(k) ==> i == j)
    && (forall i, j :: i in m.shards && j in m.shards && m.shards[i].gid == m.shards[j].gid ==> i == j)
  }

  /** At most one split is in flight, and none while a cleanup is pending. */
  ghost predicate OneAtATime(m: Meta) {
    && (forall i, j :: i in m.shards && j in m.shards && m.shards[i].state.Splitting? && m.shards[j].state.Splitting? ==> i == j)
    && (forall g, h :: g in m.cleanups && h in m.cleanups ==> g == h)
    && (m.cleanups != map[] ==> !AnySplitting(m))
  }

  /** A pending cleanup starts where its source shard was cut. */
  ghost predicate CutAt(m: Meta, id: ShardId, gid: Gid)
    requires gid in m.cleanups
  {
    && id in m.shards && m.shards[id].gid == gid
    && m.shards[id].range.end == m.cleanups[gid].start != [] && Less(m.shards[id].range.start, m.cleanups[gid].start)
  }

  ghost predicate HasSource(m: Meta, gid: Gid)
    requires gid in m.cleanups
  {
    exists id :: CutAt(m, id, gid)
  }

  /** Identifiers in use are below the counters; a split's target is unowned. */
  ghost predicate Numbers(m: Meta) {
    && (forall i :: i in m.shards ==> i < m.nextShard && m.shards[i].gid < m.nextGid && AtMost(ROOT, m.shards[i].range.start))
    && (forall i :: i in m.shards && m.shards[i].state.Splitting? ==>
          StrictlyInside(m.shards[i].range, m.shards[i].state.key) && m.shards[i].state.newGid < m.nextGid)
    && (forall i, j :: i in m.shards && j in m.shards && m.shards[i].state.Splitting? ==> m.shards[i].state.newGid != m.shards[j].gid)
    && (forall g {:trigger HasSource(m, g)} :: g in m.cleanups ==> HasSource(m, g))
  }

  ghost predicate MetaOk(m: Meta) {
    Partition(m) && OneAtATime(m) && Numbers(m)
  }

  /** A group agrees with the acknowledged writes on its shard's range. */
  ghost predicate Holds(range: Range, latest: map<Key, Record>, truth: map<Key, Record>) {
    forall k :: range.Contains(k) ==> Lookup(latest, k) == Lookup(truth, k)
  }

  /** Outside its range a group holds at most what awaits cleanup. */
  ghost predicate Within(range: Range, cleanup: Option<Range>, latest: map<Key, Record>) {
    forall k :: k in latest ==> range.Contains(k) || (cleanup.Some? && cleanup.value.Contains(k))
  }

  ghost predicate FreezeFits(s: Shard, g: State, cleanup: Option<Range>) {
    if s.state.Splitting? then cleanup.None? && (g.freeze.None? || g.freeze == Some(Moving(s)))
    else if cleanup.None? then g.freeze.None?
    else g.freeze == cleanup || (g.freeze.None? && forall k :: k in g.latest ==> !cleanup.value.Contains(k))
  }

  /** What has been copied so far still is what the frozen source holds. */
  ghost predicate CopyFits(s: Shard, g: State, target: State) {
    s.state.Splitting? ==>
      && target.freeze.None?
      && (forall k :: k in target.latest ==> Moving(s).Contains(k) && Lookup(g.latest, k) == Some(target.latest[k]))
      && (g.freeze.None? ==> target.latest == map[])
  }

  function CleanupOf(m: Meta, gid: Gid): Option<Range> {
    if gid in m.cleanups then Some(m.cleanups[gid]) else None
  }

  ghost predicate ShardOk(sys: System, id: ShardId)
    requires id in sys.meta.shards
  {
    var s := sys.meta.shards[id];
    && s.gid in sys.groups
    && (s.state.Splitting? ==> s.state.newGid in sys.groups && CopyFits(s, sys.groups[s.gid], sys.groups[s.state.newGid]))
    && Holds(s.range, sys.groups[s.gid].latest, sys.truth)
    && Within(s.range, CleanupOf(sys.meta, s.gid), sys.groups[s.gid].latest)
    && FreezeFits(s, sys.groups[s.gid], CleanupOf(sys.meta, s.gid))
  }

  /** A key of the moving range is copied, in hand, or still ahead of the scan. */
  ghost predicate Accounted(target: State, page: seq<Entry>, done: nat, k: Key) {
    || k in target.latest
    || (exists i :: done <= i < |page| && page[i].key == k)
    || page == []
    || (|page| == COPY_PAGE && Less(page[|page| - 1].key, k))
  }

  /** The copy is underway: the freeze is in place and nothing was skipped. */
  ghost predicate CopyProgress(s: Shard, g: State, target: State, cursor: Key, page: seq<Entry>, done: nat)
    requires s.state.Splitting?
  {
    && g.freeze == Some(Moving(s)) && done <= |page| <= COPY_PAGE
    && (forall i :: 0 <= i < |page| ==> Moving(s).Contains(page[i].key) && Lookup(g.latest, page[i].key) == Some(page[i].record))
    && (page == [] ==> cursor == [])
    && (page != [] && done == |page| ==> cursor == page[|page| - 1].key && |page| == COPY_PAGE)
    && (forall k {:trigger Accounted(target, page, done, k)} :: k in g.latest && Moving(s).Contains(k) ==> Accounted(target, page, done, k))
  }

  ghost predicate CopyComplete(s: Shard, g: State, target: State)
    requires s.state.Splitting?
  {
    g.freeze == Some(Moving(s)) && forall k :: k in g.latest && Moving(s).Contains(k) ==> k in target.latest
  }

  ghost predicate CtlOk(sys: System) {
    var m := sys.meta;
    match sys.ctl
    case Idle => true
    case Created(id, key, newGid) =>
      && m.cleanups == map[] && !AnySplitting(m) && id in m.shards && StrictlyInside(m.shards[id].range, key)
      && newGid in sys.groups && newGid < m.nextGid && (forall i :: i in m.shards ==> m.shards[i].gid != newGid)
      && sys.groups[newGid].latest == map[] && sys.groups[newGid].freeze.None?
    case Copying(id, cursor, page, done) =>
      && m.cleanups == map[] && OnSplit(sys, id)
      && CopyProgress(m.shards[id], sys.groups[m.shards[id].gid], sys.groups[m.shards[id].state.newGid], cursor, page, done)
    case Copied(id) =>
      && m.cleanups == map[] && OnSplit(sys, id)
      && CopyComplete(m.shards[id], sys.groups[m.shards[id].gid], sys.groups[m.shards[id].state.newGid])
    case Numbered(id, upper) =>
      && m.cleanups == map[] && OnSplit(sys, id) && upper < m.nextShard && upper !in m.shards
      && CopyComplete(m.shards[id], sys.groups[m.shards[id].gid], sys.groups[m.shards[id].state.newGid])
    case Cleaned(gid) =>
      && gid in m.cleanups && gid in sys.groups && sys.groups[gid].freeze.None?
      && forall k :: k in sys.groups[gid].latest ==> !m.cleanups[gid].Contains(k)
  }

  ghost predicate Inv(sys: System) {
    && MetaOk(sys.meta)
    && (forall id {:trigger ShardOk(sys, id)} :: id in sys.meta.shards ==> ShardOk(sys, id))
    && (forall k :: k in sys.truth ==> AtMost(ROOT, k))
    && CtlOk(sys)
  }
}
