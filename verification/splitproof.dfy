/**
 Every step of the split protocol keeps its invariant: no acknowledged write is
 lost, revived or duplicated, whatever the interleaving and wherever the
 controller crashes.
 */
module SplitProof {
  import opened Bytes
  import opened Layout
  import opened Kv
  import opened Scan
  import opened Machine
  import opened Split

  // --- client commands ---------------------------------------------------------------

  /** One command wrote `touched` to a group, none of it frozen, and to the truth. */
  ghost predicate Wrote(g: State, t: State, truth: map<Key, Record>, truth': map<Key, Record>, touched: iset<Key>) {
    && t.freeze == g.freeze
    && (forall k :: k in touched ==> !Frozen(g, k) && (Lookup(g.latest, k) == Lookup(truth, k) ==> Lookup(t.latest, k) == Lookup(truth', k)))
    && (forall k :: k !in touched ==> Lookup(t.latest, k) == Lookup(g.latest, k) && Lookup(truth', k) == Lookup(truth, k))
  }

  function TruthAfter(c: Config, g: State, truth: map<Key, Record>, n: nat, op: Op): map<Key, Record> {
    if Rejection(c, g, op).None? then Meaning(truth, n, op) else truth
  }

  ghost function Written(c: Config, g: State, op: Op): iset<Key> {
    iset k | Rejection(c, g, op).None? && Touches(op, k)
  }

  lemma ClientWrote(c: Config, g: State, truth: map<Key, Record>, n: nat, op: Op)
    requires IsClient(op)
    ensures Wrote(g, Apply(c, g, n, op), truth, TruthAfter(c, g, truth, n, op), Written(c, g, op))
  {
    var t, truth' := Apply(c, g, n, op), TruthAfter(c, g, truth, n, op);
    ClientLatest(c, g, n, op, []);
    forall k | k in Written(c, g, op)
      ensures !Frozen(g, k) && (Lookup(g.latest, k) == Lookup(truth, k) ==> Lookup(t.latest, k) == Lookup(truth', k))
    {
      ClientLatest(c, g, n, op, k);
      if Lookup(g.latest, k) == Lookup(truth, k) { MeaningLocal(g.latest, truth, n, op, k); }
    }
    forall k | k !in Written(c, g, op) ensures Lookup(t.latest, k) == Lookup(g.latest, k) && Lookup(truth', k) == Lookup(truth, k) {
      ClientLatest(c, g, n, op, k);
      MeaningLocal(truth, truth, n, op, k);
    }
  }

  // --- the effect on one shard -----------------------------------------------------------

  ghost predicate Apart(range: Range, cleanup: Option<Range>) {
    cleanup.Some? ==> forall k :: cleanup.value.Contains(k) ==> !range.Contains(k)
  }

  lemma OwnerKept(s: Shard, g: State, t: State, cleanup: Option<Range>, truth: map<Key, Record>, truth': map<Key, Record>, touched: iset<Key>)
    requires Wrote(g, t, truth, truth', touched) && (forall k :: k in touched ==> s.range.Contains(k)) && Apart(s.range, cleanup)
    requires Holds(s.range, g.latest, truth) && Within(s.range, cleanup, g.latest) && FreezeFits(s, g, cleanup)
    ensures Holds(s.range, t.latest, truth') && Within(s.range, cleanup, t.latest) && FreezeFits(s, t, cleanup)
  {
    forall k | k in t.latest ensures s.range.Contains(k) || k in g.latest {
      if k !in touched { assert Lookup(t.latest, k) == Lookup(g.latest, k); }
    }
  }

  lemma OtherKept(s: Shard, latest: map<Key, Record>, g: State, t: State, truth: map<Key, Record>, truth': map<Key, Record>, touched: iset<Key>)
    requires Wrote(g, t, truth, truth', touched) && (forall k :: k in touched ==> !s.range.Contains(k))
    requires Holds(s.range, latest, truth)
    ensures Holds(s.range, latest, truth')
  {
  }

  /** The frozen range of the source does not move under the copy. */
  lemma FrozenKept(s: Shard, g: State, t: State, truth: map<Key, Record>, truth': map<Key, Record>, touched: iset<Key>)
    requires Wrote(g, t, truth, truth', touched) && s.state.Splitting? && g.freeze == Some(Moving(s))
    ensures forall k :: Moving(s).Contains(k) ==> Lookup(t.latest, k) == Lookup(g.latest, k)
  {
    forall k | Moving(s).Contains(k) ensures Lookup(t.latest, k) == Lookup(g.latest, k) { assert Frozen(g, k); }
  }

  lemma CopyKept(s: Shard, g: State, t: State, target: State, truth: map<Key, Record>, truth': map<Key, Record>, touched: iset<Key>)
    requires Wrote(g, t, truth, truth', touched) && CopyFits(s, g, target) && FreezeFits(s, g, None)
    ensures CopyFits(s, t, target)
  {
    if s.state.Splitting? && g.freeze.Some? { FrozenKept(s, g, t, truth, truth', touched); }
  }

  /** Copy progress depends only on the frozen range and the target's records. */
  lemma ProgressFrame(s: Shard, g: State, t: State, target: State, target': State, cursor: Key, page: seq<Entry>, done: nat)
    requires s.state.Splitting? && t.freeze == g.freeze && target'.latest == target.latest
    requires forall k :: Moving(s).Contains(k) ==> Lookup(t.latest, k) == Lookup(g.latest, k)
    ensures CopyProgress(s, g, target, cursor, page, done) ==> CopyProgress(s, t, target', cursor, page, done)
    ensures CopyComplete(s, g, target) ==> CopyComplete(s, t, target')
  {
    forall k | Moving(s).Contains(k) ensures k in t.latest <==> k in g.latest {
      assert Lookup(t.latest, k) == Lookup(g.latest, k);
    }
    if CopyProgress(s, g, target, cursor, page, done) {
      forall k | k in t.latest && Moving(s).Contains(k) ensures Accounted(target', page, done, k) {
        assert Accounted(target, page, done, k);
      }
    }
  }

  lemma NothingWrote(g: State, t: State, truth: map<Key, Record>, truth': map<Key, Record>, touched: iset<Key>)
    requires Wrote(g, t, truth, truth', touched) && forall k :: k !in touched
    ensures t.latest == g.latest && t.freeze == g.freeze
  {
    assert forall k :: Lookup(t.latest, k) == Lookup(g.latest, k);
    forall k ensures k in t.latest <==> k in g.latest { assert Lookup(t.latest, k) == Lookup(g.latest, k); }
    forall k | k in t.latest ensures t.latest[k] == g.latest[k] { assert Lookup(t.latest, k) == Lookup(g.latest, k); }
  }

  // --- the client step ----------------------------------------------------------------

  ghost predicate Owner(m: Meta, gid: Gid, k: Key, id: ShardId) {
    id in m.shards && m.shards[id].gid == gid && m.shards[id].range.Contains(k)
  }

  ghost predicate OwnedKeys(m: Meta, gid: Gid, touched: iset<Key>) {
    forall k :: k in touched ==> exists id :: Owner(m, gid, k, id)
  }

  /** A write that is not refused is one the current map routes here. */
  lemma AcceptedIsOwned(c: Config, sys: System, gid: Gid, op: Op)
    requires gid in sys.groups && IsClient(op) && forall k :: Touches(op, k) ==> RoutedKey(sys, gid, k)
    ensures OwnedKeys(sys.meta, gid, Written(c, sys.groups[gid], op))
  {
    forall k | k in Written(c, sys.groups[gid], op) ensures exists id :: Owner(sys.meta, gid, k, id) {
      AcceptedNotFrozen(c, sys.groups[gid], op, k);
      assert RoutedKey(sys, gid, k);
      var id :| id in sys.meta.shards && sys.meta.shards[id].gid == gid && sys.meta.shards[id].range.Contains(k);
      assert Owner(sys.meta, gid, k, id);
    }
  }

  lemma OwnerHolds(m: Meta, gid: Gid, touched: iset<Key>, id: ShardId)
    requires Partition(m) && OwnedKeys(m, gid, touched) && id in m.shards
    ensures forall k :: k in touched ==> (m.shards[id].gid == gid <==> m.shards[id].range.Contains(k))
  {
    forall k | k in touched ensures m.shards[id].gid == gid <==> m.shards[id].range.Contains(k) {
      var i :| Owner(m, gid, k, i);
    }
  }

  /** The range awaiting cleanup is no longer in the source shard's own range. */
  lemma CleanupApart(m: Meta, id: ShardId)
    requires Partition(m) && Numbers(m) && id in m.shards
    ensures Apart(m.shards[id].range, CleanupOf(m, m.shards[id].gid))
  {
    var gid := m.shards[id].gid;
    if gid in m.cleanups {
      var cut := m.cleanups[gid].start;
      assert HasSource(m, gid);
      var i :| CutAt(m, i, gid);
      forall k | m.cleanups[gid].Contains(k) ensures !m.shards[id].range.Contains(k) {
        LessIrreflexive(k);
        if Less(k, cut) { LessTransitive(k, cut, k); }
      }
    }
  }

  ghost predicate StepWrote(sys: System, sys': System, gid: Gid, touched: iset<Key>) {
    && gid in sys.groups && gid in sys'.groups
    && sys' == System(sys.meta, sys.groups[gid := sys'.groups[gid]], sys'.truth, sys.ctl)
    && Wrote(sys.groups[gid], sys'.groups[gid], sys.truth, sys'.truth, touched)
    && OwnedKeys(sys.meta, gid, touched)
  }

  lemma TargetUntouched(sys: System, sys': System, gid: Gid, touched: iset<Key>)
    requires StepWrote(sys, sys', gid, touched) && forall i :: i in sys.meta.shards ==> sys.meta.shards[i].gid != gid
    ensures sys'.groups[gid].latest == sys.groups[gid].latest && sys'.groups[gid].freeze == sys.groups[gid].freeze
  {
    assert forall k, id :: k in touched ==> !Owner(sys.meta, gid, k, id);
    NothingWrote(sys.groups[gid], sys'.groups[gid], sys.truth, sys'.truth, touched);
  }

  lemma WroteShard(sys: System, sys': System, gid: Gid, touched: iset<Key>, id: ShardId)
    requires MetaOk(sys.meta) && StepWrote(sys, sys', gid, touched) && id in sys.meta.shards && ShardOk(sys, id)
    ensures ShardOk(sys', id)
  {
    var s := sys.meta.shards[id];
    var cleanup := CleanupOf(sys.meta, s.gid);
    OwnerHolds(sys.meta, gid, touched, id);
    CleanupApart(sys.meta, id);
    if gid == s.gid {
      OwnerKept(s, sys.groups[gid], sys'.groups[gid], cleanup, sys.truth, sys'.truth, touched);
      if s.state.Splitting? { CopyKept(s, sys.groups[gid], sys'.groups[gid], sys.groups[s.state.newGid], sys.truth, sys'.truth, touched); }
    } else {
      OtherKept(s, sys.groups[s.gid].latest, sys.groups[gid], sys'.groups[gid], sys.truth, sys'.truth, touched);
      if s.state.Splitting? && gid == s.state.newGid { TargetUntouched(sys, sys', gid, touched); }
    }
  }

  lemma WroteCopy(sys: System, sys': System, gid: Gid, touched: iset<Key>, id: ShardId, cursor: Key, page: seq<Entry>, done: nat)
    requires MetaOk(sys.meta) && StepWrote(sys, sys', gid, touched) && OnSplit(sys, id)
    requires sys.groups[sys.meta.shards[id].gid].freeze == Some(Moving(sys.meta.shards[id]))
    ensures var s := sys.meta.shards[id];
            && (CopyProgress(s, sys.groups[s.gid], sys.groups[s.state.newGid], cursor, page, done) ==>
                CopyProgress(s, sys'.groups[s.gid], sys'.groups[s.state.newGid], cursor, page, done))
            && (CopyComplete(s, sys.groups[s.gid], sys.groups[s.state.newGid]) ==>
                CopyComplete(s, sys'.groups[s.gid], sys'.groups[s.state.newGid]))
  {
    var s := sys.meta.shards[id];
    if gid == s.gid {
      FrozenKept(s, sys.groups[gid], sys'.groups[gid], sys.truth, sys'.truth, touched);
    } else if gid == s.state.newGid {
      TargetUntouched(sys, sys', gid, touched);
    }
    ProgressFrame(s, sys.groups[s.gid], sys'.groups[s.gid], sys.groups[s.state.newGid], sys'.groups[s.state.newGid], cursor, page, done);
  }

  /** After the cleanup applied, no write reaches the moved range. */
  lemma WroteCleaned(sys: System, sys': System, gid: Gid, touched: iset<Key>)
    requires MetaOk(sys.meta) && StepWrote(sys, sys', gid, touched) && sys.ctl == Cleaned(gid) && CtlOk(sys)
    ensures forall k :: k in sys'.groups[gid].latest ==> !sys.meta.cleanups[gid].Contains(k)
  {
    var moved, g, t := sys.meta.cleanups[gid], sys.groups[gid], sys'.groups[gid];
    forall k | k in t.latest ensures !moved.Contains(k) {
      if k in touched {
        var i :| Owner(sys.meta, gid, k, i);
        CleanupApart(sys.meta, i);
      } else {
        assert Lookup(t.latest, k) == Lookup(g.latest, k);
      }
    }
  }

  lemma WroteCtl(sys: System, sys': System, gid: Gid, touched: iset<Key>)
    requires MetaOk(sys.meta) && StepWrote(sys, sys', gid, touched) && CtlOk(sys)
    ensures CtlOk(sys')
  {
    match sys.ctl
    case Idle =>
    case Created(_, _, newGid) => if gid == newGid { TargetUntouched(sys, sys', gid, touched); }
    case Cleaned(done) => if gid == done { WroteCleaned(sys, sys', gid, touched); }
    case Copying(id, cursor, page, done) => WroteCopy(sys, sys', gid, touched, id, cursor, page, done);
    case Copied(id) => WroteCopy(sys, sys', gid, touched, id, [], [], 0);
    case Numbered(id, _) => WroteCopy(sys, sys', gid, touched, id, [], [], 0);
  }

  lemma WroteTruth(sys: System, sys': System, gid: Gid, touched: iset<Key>, k: Key)
    requires Numbers(sys.meta) && StepWrote(sys, sys', gid, touched) && k in sys'.truth && (k in sys.truth ==> AtMost(ROOT, k))
    ensures AtMost(ROOT, k)
  {
    if k in touched {
      var id :| Owner(sys.meta, gid, k, id);
      var start := sys.meta.shards[id].range.start;
      if ROOT != start && start != k { LessTransitive(ROOT, start, k); }
    } else {
      assert Lookup(sys'.truth, k) == Lookup(sys.truth, k);
    }
  }

  lemma WroteInv(sys: System, sys': System, gid: Gid, touched: iset<Key>)
    requires Inv(sys) && StepWrote(sys, sys', gid, touched)
    ensures Inv(sys')
  {
    forall id | id in sys'.meta.shards ensures ShardOk(sys', id) { WroteShard(sys, sys', gid, touched, id); }
    forall k | k in sys'.truth ensures AtMost(ROOT, k) { WroteTruth(sys, sys', gid, touched, k); }
    WroteCtl(sys, sys', gid, touched);
  }

  lemma ClientInv(c: Config, sys: System, gid: Gid, n: nat, op: Op)
    requires Inv(sys) && Enabled(sys, Client(gid, n, op))
    ensures Inv(Next(c, sys, Client(gid, n, op)))
  {
    ClientWrote(c, sys.groups[gid], sys.truth, n, op);
    AcceptedIsOwned(c, sys, gid, op);
    WroteInv(sys, Next(c, sys, Client(gid, n, op)), gid, Written(c, sys.groups[gid], op));
  }

  // --- frames for the controller's steps -------------------------------------------------

  ghost predicate SameGroup(sys: System, sys': System, gid: Gid) {
    gid in sys.groups ==> gid in sys'.groups && sys'.groups[gid].latest == sys.groups[gid].latest && sys'.groups[gid].freeze == sys.groups[gid].freeze
  }

  lemma ShardFrame(sys: System, sys': System, id: ShardId)
    requires id in sys.meta.shards && id in sys'.meta.shards && sys'.meta.shards[id] == sys.meta.shards[id] && sys'.truth == sys.truth
    requires CleanupOf(sys'.meta, sys.meta.shards[id].gid) == CleanupOf(sys.meta, sys.meta.shards[id].gid)
    requires SameGroup(sys, sys', sys.meta.shards[id].gid)
    requires sys.meta.shards[id].state.Splitting? ==> SameGroup(sys, sys', sys.meta.shards[id].state.newGid)
    requires ShardOk(sys, id)
    ensures ShardOk(sys', id)
  {
  }

  lemma InitPartition(m: Meta, s: Shard)
    requires m.shards == map[1 := s] && s.range == Range(ROOT, [])
    ensures Partition(m)
  {
    forall k | AtMost(ROOT, k) ensures Covered(m, k) { assert m.shards[1].range.Contains(k); }
    assert forall i :: i in m.shards ==> i == 1;
  }

  lemma InitNumbers(m: Meta, s: Shard)
    requires m == Meta(map[1 := s], map[], 3, 2) && s.state == Active && s.gid == 2 && AtMost(ROOT, s.range.start)
    ensures OneAtATime(m) && Numbers(m)
  {
    assert forall i :: i in m.shards ==> i == 1;
  }

  lemma InitInv()
    ensures Inv(INIT)
  {
    var root := Range(ROOT, []);
    InitPartition(INIT.meta, Shard(root, 2, Active));
    InitNumbers(INIT.meta, Shard(root, 2, Active));
    assert Holds(root, map[], map[]) && Within(root, None, map[]);
  }

  lemma CrashInv(c: Config, sys: System)
    requires Inv(sys)
    ensures Inv(Next(c, sys, Crash))
  {
    var sys' := Next(c, sys, Crash);
    forall id | id in sys'.meta.shards ensures ShardOk(sys', id) { ShardFrame(sys, sys', id); }
  }

  lemma CreateGroupInv(c: Config, sys: System, id: ShardId, key: Key)
    requires Inv(sys) && Enabled(sys, CreateGroup(id, key))
    ensures Inv(Next(c, sys, CreateGroup(id, key)))
  {
    var sys' := Next(c, sys, CreateGroup(id, key));
    CoverFrame(sys.meta, sys'.meta);
    forall i | i in sys'.meta.shards ensures ShardOk(sys', i) { ShardFrame(sys, sys', i); }
  }

  lemma CoverFrame(m: Meta, m': Meta)
    requires Partition(m) && m'.shards.Keys == m.shards.Keys
    requires forall i :: i in m.shards ==> m'.shards[i].range == m.shards[i].range && m'.shards[i].gid == m.shards[i].gid
    ensures Partition(m')
  {
    forall k | AtMost(ROOT, k) ensures Covered(m', k) {
      assert Covered(m, k);
      var id :| id in m.shards && m.shards[id].range.Contains(k);
      assert m'.shards[id].range.Contains(k);
    }
  }

  // --- begin and freeze --------------------------------------------------------------------

  lemma MarkMeta(m: Meta, m': Meta, id: ShardId, key: Key, newGid: Gid)
    requires MetaOk(m) && !AnySplitting(m) && m.cleanups == map[]
    requires id in m.shards && StrictlyInside(m.shards[id].range, key)
    requires newGid < m.nextGid && forall i :: i in m.shards ==> m.shards[i].gid != newGid
    requires m' == m.(shards := m.shards[id := m.shards[id].(state := Splitting(key, newGid))])
    ensures MetaOk(m')
  {
    CoverFrame(m, m');
  }

  lemma MarkedShard(sys: System, sys': System, id: ShardId, key: Key, newGid: Gid, i: ShardId)
    requires sys.meta.cleanups == map[] && id in sys.meta.shards && newGid in sys.groups && i in sys.meta.shards
    requires sys.meta.shards[id].state.Active? && sys.groups[newGid].latest == map[] && sys.groups[newGid].freeze.None?
    requires sys'.meta == sys.meta.(shards := sys.meta.shards[id := sys.meta.shards[id].(state := Splitting(key, newGid))])
    requires sys'.groups == sys.groups && sys'.truth == sys.truth && ShardOk(sys, i)
    ensures ShardOk(sys', i)
  {
    if i != id { ShardFrame(sys, sys', i); }
  }

  lemma MarkSplittingInv(c: Config, sys: System)
    requires Inv(sys) && Enabled(sys, MarkSplitting)
    ensures Inv(Next(c, sys, MarkSplitting))
  {
    var sys' := Next(c, sys, MarkSplitting);
    MarkMeta(sys.meta, sys'.meta, sys.ctl.id, sys.ctl.key, sys.ctl.newGid);
    forall i | i in sys'.meta.shards ensures ShardOk(sys', i) {
      MarkedShard(sys, sys', sys.ctl.id, sys.ctl.key, sys.ctl.newGid, i);
    }
  }

  lemma FrozeShard(sys: System, sys': System, id: ShardId, t: State, i: ShardId)
    requires MetaOk(sys.meta) && sys.meta.cleanups == map[] && OnSplit(sys, id)
    requires sys'.meta == sys.meta && sys'.truth == sys.truth && sys'.groups == sys.groups[sys.meta.shards[id].gid := t]
    requires t.latest == sys.groups[sys.meta.shards[id].gid].latest && t.freeze == Some(Moving(sys.meta.shards[id]))
    requires i in sys.meta.shards && ShardOk(sys, i)
    ensures ShardOk(sys', i)
  {
    if i != id { ShardFrame(sys, sys', i); }
  }

  lemma FreezeEffect(c: Config, g: State, n: nat, range: Range)
    ensures var t := Apply(c, g, n, FreezeRange(range)); t.latest == g.latest && t.freeze == Some(range)
  {
    QuietLatest(c, g, n, FreezeRange(range));
    ApplyFreeze(c, g, n, FreezeRange(range));
  }

  lemma CopyStarts(s: Shard, g: State, target: State)
    requires s.state.Splitting? && g.freeze == Some(Moving(s))
    ensures CopyProgress(s, g, target, [], [], 0)
  {
  }

  lemma FreezeInv(c: Config, sys: System, id: ShardId, n: nat)
    requires Inv(sys) && Enabled(sys, Freeze(id, n))
    ensures Inv(Next(c, sys, Freeze(id, n)))
  {
    var sys' := Next(c, sys, Freeze(id, n));
    var s := sys.meta.shards[id];
    FreezeEffect(c, sys.groups[s.gid], n, Moving(s));
    CopyStarts(s, sys'.groups[s.gid], sys'.groups[s.state.newGid]);
    forall i | i in sys'.meta.shards ensures ShardOk(sys', i) { FrozeShard(sys, sys', id, sys'.groups[s.gid], i); }
  }

  // --- the copy --------------------------------------------------------------------------

  /** A fetched page leaves out nothing between the cursor and its last key. */
  lemma PageProgress(s: Shard, g: State, target: State, cursor: Key, page: seq<Entry>, next: seq<Entry>)
    requires s.state.Splitting? && CopyProgress(s, g, target, cursor, page, |page|)
    requires IsRangeListing(next, g, Moving(s), cursor, COPY_PAGE)
    ensures next == [] ==> CopyComplete(s, g, target)
    ensures next != [] ==> CopyProgress(s, g, target, cursor, next, 0)
  {
    var keys := RangeKeys(g, Moving(s), cursor);
    forall i | 0 <= i < |next| ensures Moving(s).Contains(next[i].key) { assert Keys(next)[i] in keys; }
    forall k | k in g.latest && Moving(s).Contains(k)
      ensures k in target.latest || (next != [] && Accounted(target, next, 0, k))
    {
      if k !in target.latest {
        assert Accounted(target, page, |page|, k);
        assert k in keys;
        PageReaches(next, keys, k);
      }
    }
  }

  lemma PageReaches(page: seq<Entry>, keys: set<Key>, k: Key)
    requires IsPage(Keys(page), keys, COPY_PAGE) && k in keys
    ensures (exists i :: 0 <= i < |page| && page[i].key == k) || (|page| == COPY_PAGE && Less(page[|page| - 1].key, k))
  {
    var q := Keys(page);
    if k in q {
      var i :| 0 <= i < |q| && q[i] == k;
      assert page[i].key == k;
    } else {
      var last := q[|q| - 1];
      LessTotal(k, last);
      assert last in q;
    }
  }

  lemma FetchPageCtl(c: Config, sys: System, n: nat, page: seq<Entry>)
    requires CtlOk(sys) && Enabled(sys, FetchPage(n, page))
    ensures CtlOk(Next(c, sys, FetchPage(n, page)))
    ensures forall gid :: SameGroup(sys, Next(c, sys, FetchPage(n, page)), gid)
  {
    var sys' := Next(c, sys, FetchPage(n, page));
    var s := sys.meta.shards[sys.ctl.id];
    var g, target, target' := sys.groups[s.gid], sys.groups[s.state.newGid], sys'.groups[s.state.newGid];
    var op := ListRange(Moving(s), sys.ctl.cursor, COPY_PAGE);
    QuietLatest(c, g, n, op);
    ApplyFreeze(c, g, n, op);
    QuietLatest(c, target, n, op);
    PageProgress(s, g, target, sys.ctl.cursor, sys.ctl.page, page);
    ProgressFrame(s, g, sys'.groups[s.gid], target, target', sys.ctl.cursor, page, 0);
  }

  lemma FetchPageInv(c: Config, sys: System, n: nat, page: seq<Entry>)
    requires Inv(sys) && Enabled(sys, FetchPage(n, page))
    ensures Inv(Next(c, sys, FetchPage(n, page)))
  {
    var sys' := Next(c, sys, FetchPage(n, page));
    FetchPageCtl(c, sys, n, page);
    FrameInv(sys, sys');
  }

  /** A step that changes only the controller's own state. */
  lemma FrameInv(sys: System, sys': System)
    requires Inv(sys) && sys'.meta == sys.meta && sys'.truth == sys.truth && CtlOk(sys')
    requires forall gid :: SameGroup(sys, sys', gid)
    ensures Inv(sys')
  {
    forall i | i in sys'.meta.shards ensures ShardOk(sys', i) { ShardFrame(sys, sys', i); }
  }

  lemma {:induction false} PairsOfHolds(page: seq<Entry>)
    ensures forall i :: 0 <= i < |page| ==> page[i].key in PairsOf(page)
    ensures forall k :: k in PairsOf(page) ==> exists i :: 0 <= i < |page| && page[i].key == k && page[i].record == PairsOf(page)[k]
    decreases |page|
  {
    if page != [] {
      var init, last := page[..|page| - 1], page[|page| - 1];
      PairsOfHolds(init);
      assert forall i :: 0 <= i < |init| ==> init[i] == page[i];
      forall k | k in PairsOf(page) ensures exists i :: 0 <= i < |page| && page[i].key == k && page[i].record == PairsOf(page)[k] {
        if k != last.key {
          var i :| 0 <= i < |init| && init[i].key == k && init[i].record == PairsOf(init)[k];
          assert page[i].key == k;
        } else {
          assert page[|page| - 1].key == k;
        }
      }
    }
  }

  /** Copying a batch twice, or in any grouping, only ever adds source records. */
  lemma BatchFits(s: Shard, g: State, target: State, target': State, page: seq<Entry>, done: nat, done': nat)
    requires s.state.Splitting? && done <= done' <= |page|
    requires forall i :: 0 <= i < |page| ==> Moving(s).Contains(page[i].key) && Lookup(g.latest, page[i].key) == Some(page[i].record)
    requires g.freeze == Some(Moving(s)) && CopyFits(s, g, target)
    requires target'.latest == target.latest + PairsOf(page[done..done']) && target'.freeze == target.freeze
    ensures CopyFits(s, g, target')
    ensures forall i :: done <= i < done' ==> page[i].key in target'.latest
    ensures forall k :: k in target.latest ==> k in target'.latest
  {
    var batch := page[done..done'];
    PairsOfHolds(batch);
    forall k | k in target'.latest ensures Moving(s).Contains(k) && Lookup(g.latest, k) == Some(target'.latest[k]) {
      if k in PairsOf(batch) {
        var i :| 0 <= i < |batch| && batch[i].key == k && batch[i].record == PairsOf(batch)[k];
        assert batch[i] == page[done + i];
      }
    }
    forall i | done <= i < done' ensures page[i].key in target'.latest { assert batch[i - done] == page[i]; }
  }

  lemma BatchProgress(s: Shard, g: State, target: State, target': State, cursor: Key, page: seq<Entry>, done: nat, done': nat)
    requires s.state.Splitting? && done < done' <= |page| && CopyProgress(s, g, target, cursor, page, done)
    requires forall i :: done <= i < done' ==> page[i].key in target'.latest
    requires forall k :: k in target.latest ==> k in target'.latest
    ensures done' < |page| ==> CopyProgress(s, g, target', cursor, page, done')
    ensures done' == |page| && |page| < COPY_PAGE ==> CopyComplete(s, g, target')
    ensures done' == |page| && |page| == COPY_PAGE ==> CopyProgress(s, g, target', page[|page| - 1].key, page, done')
  {
    forall k | k in g.latest && Moving(s).Contains(k)
      ensures Accounted(target', page, done', k)
    {
      assert Accounted(target, page, done, k);
      if k !in target'.latest && exists i :: done <= i < |page| && page[i].key == k {
        var i :| done <= i < |page| && page[i].key == k;
        assert done' <= i;
      }
    }
  }

  lemma CopyBatchEffect(c: Config, target: State, n: nat, pairs: map<Key, Record>)
    ensures var t := Apply(c, target, n, CopyIn(pairs)); t.latest == target.latest + pairs && t.freeze == target.freeze
  {
    CopyInLatest(c, target, n, pairs);
    ApplyFreeze(c, target, n, CopyIn(pairs));
  }

  /** The target group took one batch of the page and nothing else moved. */
  ghost predicate StepCopied(sys: System, sys': System, done: nat) {
    var ctl := sys.ctl;
    && ctl.Copying? && OnSplit(sys, ctl.id) && ctl.done < done <= |ctl.page|
    && sys'.meta == sys.meta && sys'.truth == sys.truth
    && sys'.ctl == AfterBatch(ctl, done)
    && var target := sys.meta.shards[ctl.id].state.newGid;
    && target in sys'.groups && sys'.groups == sys.groups[target := sys'.groups[target]]
    && sys'.groups[target].latest == sys.groups[target].latest + PairsOf(ctl.page[ctl.done..done])
    && sys'.groups[target].freeze == sys.groups[target].freeze
  }

  lemma CopiedCtl(sys: System, sys': System, done: nat)
    requires MetaOk(sys.meta) && CtlOk(sys) && StepCopied(sys, sys', done) && ShardOk(sys, sys.ctl.id)
    ensures CtlOk(sys') && ShardOk(sys', sys.ctl.id)
  {
    var ctl := sys.ctl;
    var s := sys.meta.shards[ctl.id];
    var g, target, target' := sys.groups[s.gid], sys.groups[s.state.newGid], sys'.groups[s.state.newGid];
    BatchFits(s, g, target, target', ctl.page, ctl.done, done);
    BatchProgress(s, g, target, target', ctl.cursor, ctl.page, ctl.done, done);
  }

  lemma CopiedInv(sys: System, sys': System, done: nat)
    requires Inv(sys) && StepCopied(sys, sys', done)
    ensures Inv(sys')
  {
    CopiedCtl(sys, sys', done);
    forall i | i in sys'.meta.shards ensures ShardOk(sys', i) {
      if i != sys.ctl.id { ShardFrame(sys, sys', i); }
    }
  }

  lemma CopyBatchStep(c: Config, sys: System, n: nat, size: nat)
    requires Enabled(sys, CopyBatch(n, size))
    ensures StepCopied(sys, Next(c, sys, CopyBatch(n, size)), sys.ctl.done + size)
  {
    var ctl := sys.ctl;
    var target := sys.groups[sys.meta.shards[ctl.id].state.newGid];
    CopyBatchEffect(c, target, n, PairsOf(ctl.page[ctl.done..ctl.done + size]));
  }

  lemma CopyBatchInv(c: Config, sys: System, n: nat, size: nat)
    requires Inv(sys) && Enabled(sys, CopyBatch(n, size))
    ensures Inv(Next(c, sys, CopyBatch(n, size)))
  {
    CopyBatchStep(c, sys, n, size);
    CopiedInv(sys, Next(c, sys, CopyBatch(n, size)), sys.ctl.done + size);
  }

  lemma AllocateShardInv(c: Config, sys: System)
    requires Inv(sys) && Enabled(sys, AllocateShard)
    ensures Inv(Next(c, sys, AllocateShard))
  {
    var sys' := Next(c, sys, AllocateShard);
    CoverFrame(sys.meta, sys'.meta);
    forall i | i in sys'.meta.shards ensures ShardOk(sys', i) { ShardFrame(sys, sys', i); }
  }

  // --- the flip ----------------------------------------------------------------------------

  function FlippedShards(shards: map<ShardId, Shard>, id: ShardId, upper: ShardId): map<ShardId, Shard>
    requires id in shards && shards[id].state.Splitting?
  {
    var s := shards[id];
    shards[upper := Shard(Moving(s), s.state.newGid, Active)][id := Shard(Lower(s.range, s.state.key), s.gid, Active)]
  }

  /** Which old shard a shard of the flipped map takes its range from. */
  function Origin(id: ShardId, upper: ShardId, i: ShardId): ShardId {
    if i == upper then id else i
  }

  lemma FlipOrigin(m: Meta, id: ShardId, upper: ShardId, i: ShardId, k: Key)
    requires Numbers(m) && id in m.shards && m.shards[id].state.Splitting? && upper !in m.shards
    requires var shards := FlippedShards(m.shards, id, upper); i in shards && shards[i].range.Contains(k)
    ensures Origin(id, upper, i) in m.shards && m.shards[Origin(id, upper, i)].range.Contains(k)
  {
    CutRange(m.shards[id].range, m.shards[id].state.key, k);
  }

  lemma FlipCovers(m: Meta, m': Meta, id: ShardId, upper: ShardId, k: Key)
    requires Partition(m) && Numbers(m) && id in m.shards && m.shards[id].state.Splitting? && upper !in m.shards
    requires m'.shards == FlippedShards(m.shards, id, upper) && AtMost(ROOT, k)
    ensures Covered(m', k)
  {
    assert Covered(m, k);
    var i :| i in m.shards && m.shards[i].range.Contains(k);
    if i == id {
      CutRange(m.shards[id].range, m.shards[id].state.key, k);
      assert m'.shards[id].range.Contains(k) || m'.shards[upper].range.Contains(k);
    } else {
      assert m'.shards[i].range.Contains(k);
    }
  }

  lemma FlipDisjoint(m: Meta, m': Meta, id: ShardId, upper: ShardId, i: ShardId, j: ShardId, k: Key)
    requires Partition(m) && Numbers(m) && id in m.shards && m.shards[id].state.Splitting? && upper !in m.shards
    requires m'.shards == FlippedShards(m.shards, id, upper)
    requires i in m'.shards && j in m'.shards && m'.shards[i].range.Contains(k) && m'.shards[j].range.Contains(k)
    ensures i == j
  {
    FlipOrigin(m, id, upper, i, k);
    FlipOrigin(m, id, upper, j, k);
    assert Origin(id, upper, i) == Origin(id, upper, j);
    CutRange(m.shards[id].range, m.shards[id].state.key, k);
  }

  lemma FlipPartition(m: Meta, m': Meta, id: ShardId, upper: ShardId)
    requires Partition(m) && Numbers(m) && id in m.shards && m.shards[id].state.Splitting? && upper !in m.shards
    requires m'.shards == FlippedShards(m.shards, id, upper)
    ensures Partition(m')
  {
    forall k | AtMost(ROOT, k) ensures Covered(m', k) { FlipCovers(m, m', id, upper, k); }
    forall i, j, k | i in m'.shards && j in m'.shards && m'.shards[i].range.Contains(k) && m'.shards[j].range.Contains(k) ensures i == j {
      FlipDisjoint(m, m', id, upper, i, j, k);
    }
    forall i, j | i in m'.shards && j in m'.shards && m'.shards[i].gid == m'.shards[j].gid ensures i == j { FlipOwners(m, id, upper, i, j); }
  }

  lemma FlipOwners(m: Meta, id: ShardId, upper: ShardId, i: ShardId, j: ShardId)
    requires Partition(m) && Numbers(m) && id in m.shards && m.shards[id].state.Splitting? && upper !in m.shards
    requires var shards := FlippedShards(m.shards, id, upper); i in shards && j in shards && shards[i].gid == shards[j].gid
    ensures i == j
  {
  }

  lemma FlipNumbers(m: Meta, m': Meta, id: ShardId, upper: ShardId)
    requires OneAtATime(m) && Numbers(m) && id in m.shards && m.shards[id].state.Splitting? && upper !in m.shards && upper < m.nextShard
    requires m.cleanups == map[] && m'.nextGid == m.nextGid && m'.nextShard == m.nextShard
    requires m'.shards == FlippedShards(m.shards, id, upper) && m'.cleanups == map[m.shards[id].gid := Moving(m.shards[id])]
    ensures OneAtATime(m') && Numbers(m')
  {
    var s := m.shards[id];
    if ROOT != s.range.start { LessTransitive(ROOT, s.range.start, s.state.key); }
    assert CutAt(m', id, s.gid);
    forall i | i in m'.shards ensures m'.shards[i].state == Active {
      if i != id && i != upper { assert m.shards[i].state.Active?; }
    }
  }

  /** The copy is whole, so the target owns exactly the truth of its range. */
  lemma FlipHolds(s: Shard, g: State, target: State, truth: map<Key, Record>)
    requires s.state.Splitting? && CopyFits(s, g, target) && CopyComplete(s, g, target) && StrictlyInside(s.range, s.state.key)
    requires Holds(s.range, g.latest, truth) && Within(s.range, None, g.latest)
    ensures Holds(Moving(s), target.latest, truth) && Within(Moving(s), None, target.latest)
    ensures Holds(Lower(s.range, s.state.key), g.latest, truth) && Within(Lower(s.range, s.state.key), Some(Moving(s)), g.latest)
  {
    forall k ensures s.range.Contains(k) <==> Lower(s.range, s.state.key).Contains(k) || Moving(s).Contains(k) {
      CutRange(s.range, s.state.key, k);
    }
    forall k | Moving(s).Contains(k) ensures Lookup(target.latest, k) == Lookup(truth, k) {
      assert Lookup(g.latest, k) == Lookup(truth, k);
    }
  }

  lemma FlipShard(sys: System, sys': System, id: ShardId, upper: ShardId, i: ShardId)
    requires MetaOk(sys.meta) && OnSplit(sys, id) && sys.meta.cleanups == map[] && upper !in sys.meta.shards
    requires var s := sys.meta.shards[id]; CopyComplete(s, sys.groups[s.gid], sys.groups[s.state.newGid])
    requires sys'.meta.shards == FlippedShards(sys.meta.shards, id, upper)
    requires sys'.meta.cleanups == map[sys.meta.shards[id].gid := Moving(sys.meta.shards[id])]
    requires sys'.groups == sys.groups && sys'.truth == sys.truth && i in sys'.meta.shards
    requires ShardOk(sys, Origin(id, upper, i))
    ensures ShardOk(sys', i)
  {
    var s := sys.meta.shards[id];
    if i == upper || i == id {
      FlipHolds(s, sys.groups[s.gid], sys.groups[s.state.newGid], sys.truth);
    } else {
      ShardFrame(sys, sys', i);
    }
  }

  lemma FlipInv(c: Config, sys: System)
    requires Inv(sys) && Enabled(sys, Flip)
    ensures Inv(Next(c, sys, Flip))
  {
    var sys' := Next(c, sys, Flip);
    var id, upper := sys.ctl.id, sys.ctl.upper;
    assert sys'.meta.shards == FlippedShards(sys.meta.shards, id, upper);
    assert sys'.meta.cleanups == map[sys.meta.shards[id].gid := Moving(sys.meta.shards[id])];
    FlipPartition(sys.meta, sys'.meta, id, upper);
    FlipNumbers(sys.meta, sys'.meta, id, upper);
    forall i | i in sys'.meta.shards ensures ShardOk(sys', i) { FlipShard(sys, sys', id, upper, i); }
  }

  // --- cleanup -----------------------------------------------------------------------------

  /** Deleting the moved range touches no key the source still owns. */
  lemma CleanupHolds(s: Shard, g: State, t: State, moved: Range, truth: map<Key, Record>)
    requires Apart(s.range, Some(moved)) && Holds(s.range, g.latest, truth) && Within(s.range, Some(moved), g.latest)
    requires forall k :: Lookup(t.latest, k) == if moved.Contains(k) then None else Lookup(g.latest, k)
    ensures Holds(s.range, t.latest, truth) && Within(s.range, None, t.latest)
    ensures forall k :: k in t.latest ==> !moved.Contains(k)
  {
    forall k | k in t.latest ensures k in g.latest && !moved.Contains(k) { assert Lookup(t.latest, k).Some?; }
  }

  lemma CleanupEffect(c: Config, g: State, n: nat, moved: Range)
    ensures var t := Apply(c, g, n, SplitCleanup(moved));
            && (forall k :: Lookup(t.latest, k) == if moved.Contains(k) then None else Lookup(g.latest, k))
            && t.freeze == if g.freeze == Some(moved) then None else g.freeze
  {
    ApplyFreeze(c, g, n, SplitCleanup(moved));
    forall k ensures Lookup(Apply(c, g, n, SplitCleanup(moved)).latest, k) == if moved.Contains(k) then None else Lookup(g.latest, k) {
      CleanupLatest(c, g, n, moved, k);
    }
  }

  lemma CleanedShard(sys: System, sys': System, gid: Gid, id: ShardId)
    requires MetaOk(sys.meta) && gid in sys.meta.cleanups && gid in sys.groups && gid in sys'.groups
    requires sys'.meta == sys.meta && sys'.truth == sys.truth && sys'.groups == sys.groups[gid := sys'.groups[gid]]
    requires forall k :: Lookup(sys'.groups[gid].latest, k) == if sys.meta.cleanups[gid].Contains(k) then None else Lookup(sys.groups[gid].latest, k)
    requires sys'.groups[gid].freeze == if sys.groups[gid].freeze == Some(sys.meta.cleanups[gid]) then None else sys.groups[gid].freeze
    requires id in sys.meta.shards && ShardOk(sys, id)
    ensures ShardOk(sys', id)
    ensures sys.meta.shards[id].gid == gid ==>
              sys'.groups[gid].freeze.None? && forall k :: k in sys'.groups[gid].latest ==> !sys.meta.cleanups[gid].Contains(k)
  {
    var s := sys.meta.shards[id];
    assert sys.meta.cleanups != map[];
    assert s.state.Active? by { assert !AnySplitting(sys.meta); }
    if s.gid == gid {
      CleanupApart(sys.meta, id);
      CleanupHolds(s, sys.groups[gid], sys'.groups[gid], sys.meta.cleanups[gid], sys.truth);
    } else {
      ShardFrame(sys, sys', id);
    }
  }

  lemma CleanupInv(c: Config, sys: System, gid: Gid, n: nat)
    requires Inv(sys) && Enabled(sys, Cleanup(gid, n))
    ensures Inv(Next(c, sys, Cleanup(gid, n)))
  {
    var sys' := Next(c, sys, Cleanup(gid, n));
    CleanupEffect(c, sys.groups[gid], n, sys.meta.cleanups[gid]);
    forall id | id in sys'.meta.shards ensures ShardOk(sys', id) { CleanedShard(sys, sys', gid, id); }
    assert HasSource(sys.meta, gid);
    var owner :| CutAt(sys.meta, owner, gid);
    CleanedShard(sys, sys', gid, owner);
  }

  lemma DroppedShard(sys: System, sys': System, gid: Gid, id: ShardId)
    requires MetaOk(sys.meta) && gid in sys.meta.cleanups && gid in sys.groups && sys.groups[gid].freeze.None?
    requires forall k :: k in sys.groups[gid].latest ==> !sys.meta.cleanups[gid].Contains(k)
    requires sys'.meta == sys.meta.(cleanups := sys.meta.cleanups - {gid}) && sys'.truth == sys.truth && sys'.groups == sys.groups
    requires id in sys.meta.shards && ShardOk(sys, id)
    ensures ShardOk(sys', id)
  {
    var s := sys.meta.shards[id];
    assert s.state.Active? by { assert !AnySplitting(sys.meta); }
    if s.gid != gid { ShardFrame(sys, sys', id); }
  }

  lemma DropCleanupInv(c: Config, sys: System)
    requires Inv(sys) && Enabled(sys, DropCleanup)
    ensures Inv(Next(c, sys, DropCleanup))
  {
    var sys' := Next(c, sys, DropCleanup);
    CoverFrame(sys.meta, sys'.meta);
    forall id | id in sys'.meta.shards ensures ShardOk(sys', id) { DroppedShard(sys, sys', sys.ctl.gid, id); }
    assert !AnySplitting(sys'.meta) by { assert !AnySplitting(sys.meta); }
  }

  // --- every run ----------------------------------------------------------------------------

  lemma StepInv(c: Config, sys: System, step: Step)
    requires Inv(sys) && Enabled(sys, step)
    ensures Inv(Next(c, sys, step))
  {
    match step
    case Client(gid, n, op) => ClientInv(c, sys, gid, n, op);
    case CreateGroup(id, key) => CreateGroupInv(c, sys, id, key);
    case MarkSplitting => MarkSplittingInv(c, sys);
    case Freeze(id, n) => FreezeInv(c, sys, id, n);
    case FetchPage(n, page) => FetchPageInv(c, sys, n, page);
    case CopyBatch(n, size) => CopyBatchInv(c, sys, n, size);
    case AllocateShard => AllocateShardInv(c, sys);
    case Flip => FlipInv(c, sys);
    case Cleanup(gid, n) => CleanupInv(c, sys, gid, n);
    case DropCleanup => DropCleanupInv(c, sys);
    case Crash => CrashInv(c, sys);
  }

  lemma {:induction false} RunInv(c: Config, run: seq<System>, steps: seq<Step>, i: nat)
    requires IsRun(c, run, steps) && i < |run|
    ensures Inv(run[i])
  {
    if i == 0 {
      InitInv();
    } else {
      RunInv(c, run, steps, i - 1);
      StepInv(c, run[i - 1], steps[i - 1]);
    }
  }

  lemma OwnerAgrees(sys: System, id: ShardId, k: Key)
    requires Inv(sys) && id in sys.meta.shards && sys.meta.shards[id].range.Contains(k)
    ensures sys.meta.shards[id].gid in sys.groups
    ensures Lookup(sys.groups[sys.meta.shards[id].gid].latest, k) == Lookup(sys.truth, k)
  {
    assert ShardOk(sys, id);
  }

  lemma OwnerExists(sys: System, k: Key) returns (id: ShardId)
    requires Inv(sys) && k in sys.truth
    ensures id in sys.meta.shards && sys.meta.shards[id].range.Contains(k)
  {
    assert Covered(sys.meta, k);
    id :| id in sys.meta.shards && sys.meta.shards[id].range.Contains(k);
  }

  /** The shard the current map routes a key to. */
  ghost predicate Routes(sys: System, id: ShardId, k: Key) {
    id in sys.meta.shards && sys.meta.shards[id].range.Contains(k)
  }

  /**
   In every state of every run each key has exactly one owner, distinct shards
   have distinct groups, and a read routed by the map returns precisely the
   last acknowledged write of that key, or nothing if it was deleted.
   */
  lemma NoWriteIsLost(c: Config, run: seq<System>, steps: seq<Step>, i: nat, k: Key)
    requires IsRun(c, run, steps) && i < |run| && AtMost(ROOT, k)
    ensures exists id :: Routes(run[i], id, k)
    ensures forall id, other :: Routes(run[i], id, k) && Routes(run[i], other, k) ==> id == other
    ensures forall id :: Routes(run[i], id, k) ==>
              && run[i].meta.shards[id].gid in run[i].groups
              && Lookup(run[i].groups[run[i].meta.shards[id].gid].latest, k) == Lookup(run[i].truth, k)
  {
    RunInv(c, run, steps, i);
    var sys := run[i];
    assert Covered(sys.meta, k);
    var id :| id in sys.meta.shards && sys.meta.shards[id].range.Contains(k);
    assert Routes(sys, id, k);
    assert ShardOk(sys, id);
  }

  /**
   No group ever holds a key below its shard's range, and above it only what
   the pending cleanup will delete: what a listing over shards relies on.
   */
  lemma NoKeyBelowItsShard(c: Config, run: seq<System>, steps: seq<Step>, i: nat, id: ShardId, k: Key)
    requires IsRun(c, run, steps) && i < |run| && id in run[i].meta.shards
    ensures var s := run[i].meta.shards[id];
            && s.gid in run[i].groups
            && (k in run[i].groups[s.gid].latest ==> s.range.Contains(k) || (s.gid in run[i].meta.cleanups && run[i].meta.cleanups[s.gid].Contains(k)))
            && (k in run[i].groups[s.gid].latest ==> AtMost(s.range.start, k))
  {
    RunInv(c, run, steps, i);
    var m := run[i].meta;
    var s := m.shards[id];
    assert ShardOk(run[i], id);
    if s.gid in m.cleanups {
      assert HasSource(m, s.gid);
      var owner :| CutAt(m, owner, s.gid);
      assert owner == id;
      if m.cleanups[s.gid].Contains(k) && m.cleanups[s.gid].start != k { LessTransitive(s.range.start, m.cleanups[s.gid].start, k); }
    }
  }

  /** At most one split is in flight, and none while a cleanup is pending. */
  lemma OneSplitAtATime(c: Config, run: seq<System>, steps: seq<Step>, i: nat)
    requires IsRun(c, run, steps) && i < |run|
    ensures OneAtATime(run[i].meta)
  {
    RunInv(c, run, steps, i);
  }

  /** A page of the copy: 500 records, or what is left. */
  lemma CopiedPageSize(s: Shard, g: State, cursor: Key, page: seq<Entry>)
    requires s.state.Splitting? && IsRangeListing(page, g, Moving(s), cursor, COPY_PAGE)
    ensures var left := |RangeKeys(g, Moving(s), cursor)|; |page| == if left < 500 then left else 500
  {
    PageCount(Keys(page), RangeKeys(g, Moving(s), cursor), COPY_PAGE);
  }

  // --- batching a page ----------------------------------------------------------------------

  const BATCH_BYTES: nat := 0x10_0000

  function ValueBytes(entries: seq<Entry>): nat
    decreases |entries|
  {
    if entries == [] then 0 else ValueBytes(entries[..|entries| - 1]) + |entries[|entries| - 1].record.value|
  }

  predicate IsBatch(entries: seq<Entry>, pairs: map<Key, Record>, from: nat, to: nat) {
    && from < to <= |entries| && pairs == PairsOf(entries[from..to])
    && ValueBytes(entries[from..to - 1]) < 0x10_0000
  }

  /** A batch is cut only once it has reached a megabyte of values. */
  predicate IsFull(entries: seq<Entry>, from: nat, to: nat) {
    from <= to <= |entries| && ValueBytes(entries[from..to]) >= 0x10_0000
  }

  ghost predicate IsBatching(entries: seq<Entry>, batches: seq<map<Key, Record>>, cuts: seq<nat>) {
    && |cuts| == |batches| + 1 && cuts[0] == 0 && cuts[|batches|] == |entries|
    && (forall i :: 0 <= i < |batches| ==> IsBatch(entries, batches[i], cuts[i], cuts[i + 1]))
    && forall i {:trigger batches[i]} :: 0 <= i < |batches| - 1 ==> IsFull(entries, cuts[i], cuts[i + 1])
  }

  /**
   The proposals one page is copied by: consecutive slices of it, in order and
   without gaps, none of which had reached the size limit before its last pair.
   */
  method CopyPairs(entries: seq<Entry>) returns (batches: seq<map<Key, Record>>)
    ensures exists cuts :: IsBatching(entries, batches, cuts)
  {
    batches := [];
    ghost var cuts: seq<nat> := [0];
    var pairs: map<Key, Record> := map[];
    var bytes := 0;
    var from := 0;
    assert entries[0..0] == [];
    for i := 0 to |entries|
      invariant from <= i && |cuts| == |batches| + 1 && cuts[0] == 0 && cuts[|batches|] == from
      invariant pairs == PairsOf(entries[from..i]) && bytes == ValueBytes(entries[from..i]) < BATCH_BYTES
      invariant forall j :: 0 <= j < |batches| ==> IsBatch(entries, batches[j], cuts[j], cuts[j + 1])
      invariant forall j {:trigger batches[j]} :: 0 <= j < |batches| ==> IsFull(entries, cuts[j], cuts[j + 1])
    {
      var e := entries[i];
      SliceStep(entries, from, i);
      pairs := pairs[e.key := e.record];
      bytes := bytes + |e.record.value|;
      if bytes >= BATCH_BYTES {
        assert IsBatch(entries, pairs, from, i + 1);
        batches, cuts := batches + [pairs], cuts + [i + 1];
        pairs, bytes, from := map[], 0, i + 1;
        assert entries[i + 1..i + 1] == [];
      }
    }
    assert entries[from..] == entries[from..|entries|];
    PairsEmpty(entries[from..]);
    if pairs != map[] {
      assert entries[from..|entries| - 1] == entries[from..][..|entries| - from - 1];
      assert IsBatch(entries, pairs, from, |entries|);
      batches, cuts := batches + [pairs], cuts + [|entries|];
    }
    assert IsBatching(entries, batches, cuts);
  }

  lemma SliceStep(entries: seq<Entry>, from: nat, i: nat)
    requires from <= i < |entries|
    ensures PairsOf(entries[from..i + 1]) == PairsOf(entries[from..i])[entries[i].key := entries[i].record]
    ensures ValueBytes(entries[from..i + 1]) == ValueBytes(entries[from..i]) + |entries[i].record.value|
  {
    assert entries[from..i + 1][..i - from] == entries[from..i];
  }

  lemma PairsEmpty(entries: seq<Entry>)
    ensures PairsOf(entries) == map[] <==> entries == []
  {
    if entries != [] { assert entries[|entries| - 1].key in PairsOf(entries); }
  }
}
