/**
 The state machine object: committed contents, the batch being staged over
 them, and in-memory mirrors of the revision, the horizon and the freeze.
 Every method is proved to do what the functions of module Kv say.
 */
module Machine {
  import opened Bytes
  import opened Layout
  import opened Kv
  import opened Mvcc
  import opened Scan

  // --- what a command answers ------------------------------------------------------

  ghost function RangeKeys(s: State, range: Range, cursor: Key): set<Key> {
    set k | k in s.latest && range.Contains(k) && (cursor == [] || Less(cursor, k))
  }

  ghost predicate IsRangeListing(out: seq<Entry>, s: State, range: Range, cursor: Key, limit: nat) {
    && IsPage(Keys(out), RangeKeys(s, range, cursor), limit)
    && forall i :: 0 <= i < |out| ==> Lookup(s.latest, out[i].key) == Some(out[i].record)
  }

  ghost predicate Answers(c: Config, s: State, n: nat, op: Op, res: Result) {
    if Rejection(c, s, op).Some? then res == Rejected(Rejection(c, s, op).value)
    else match op
      case Get(k) => res == Read(Lookup(s.latest, k), s.rev)
      case GetAt(k, r) => res == Read(ReadAt(s, k, r), r)
      case ListAt(prefix, cursor, limit, atRev) =>
        var r := if atRev == 0 then s.rev else atRev;
        res.Page? && res.shardRev == r && IsMerge(res.entries, s, prefix, cursor, ClampLimit(limit), r) &&
        (cursor == [] || AtMost(prefix, cursor) ==> IsListing(res.entries, s, prefix, cursor, ClampLimit(limit), r))
      case ListRange(range, cursor, limit) =>
        res.Page? && res.shardRev == s.rev && IsRangeListing(res.entries, s, range, cursor, ClampLimit(limit))
      case TxPrepare(_, _, _) => res == Done
      case TxAbort(_) => res == Done
      case CopyIn(pairs) => res == Written(MaxRev(pairs, s.rev))
      case _ => res == Written(n)
  }

  // --- uint64 revisions --------------------------------------------------------------

  ghost predicate U64(s: State) {
    && s.rev < U64_LIMIT
    && Bounded(s.hist.Keys)
    && forall k :: k in s.latest ==> s.latest[k].rev < U64_LIMIT
  }

  lemma {:induction false} StageU64(db: State, n: nat, ws: seq<TxWrite>)
    requires U64(db) && n < U64_LIMIT
    ensures U64(Stage(db, n, ws))
    decreases |ws|
  {
    if ws != [] { StageU64(db, n, ws[..|ws| - 1]); }
  }

  lemma ApplyU64(c: Config, s: State, n: nat, op: Op)
    requires U64(s) && n < U64_LIMIT
    requires op.CopyIn? ==> forall k :: k in op.pairs ==> op.pairs[k].rev < U64_LIMIT
    ensures U64(Apply(c, s, n, op))
  {
    AcceptedU64(s, n, op);
    var t := ApplyOp(c, s, n, op);
    assert U64(t);
  }

  lemma AcceptedU64(s: State, n: nat, op: Op)
    requires U64(s) && n < U64_LIMIT
    requires op.CopyIn? ==> forall k :: k in op.pairs ==> op.pairs[k].rev < U64_LIMIT
    ensures U64(Accepted(s, n, op))
  {
    var ws := WritesOf(s, op);
    StageU64(s, n, ws);
    if op.CopyIn? {
      assert Stage(s, n, ws) == s;
    } else {
      AcceptedShape(s, n, op);
    }
  }

  // --- staging -----------------------------------------------------------------------

  /** A batch that staged the write list ws at revision n over `base`. */
  ghost function Overlay(base: State, db: State, n: nat, ws: seq<TxWrite>): State {
    base.(latest := Stage(db, n, ws).latest, hist := Stage(db, n, ws).hist)
  }

  lemma OverlayStep(base: State, db: State, n: nat, ws: seq<TxWrite>, w: TxWrite)
    ensures StageOne(db, Overlay(base, db, n, ws), n, w) == Overlay(base, db, n, ws + [w])
  {
    var all := ws + [w];
    assert all[..|all| - 1] == ws;
  }

  /** Stages one intent record per write key, all naming the transaction. */
  method AddIntents(intents0: map<Key, Intent>, txid: Key, ws: seq<TxWrite>) returns (intents: map<Key, Intent>)
    ensures intents == intents0 + map k | k in WriteKeys(ws) :: Intent(txid, ws)
  {
    intents := intents0;
    for i := 0 to |ws|
      invariant intents == intents0 + map k | k in WriteKeys(ws[..i]) :: Intent(txid, ws)
    {
      WriteKeysStep(ws[..i], ws[i]);
      assert ws[..i + 1] == ws[..i] + [ws[i]];
      intents := intents[ws[i].key := Intent(txid, ws)];
    }
    assert ws[..|ws|] == ws;
  }

  /** An iterator over a key set, for scans whose order does not matter. */
  method NewIter(keys: set<Key>) returns (q: seq<Key>)
    ensures forall k :: k in q <==> k in keys
  {
    q := Sorted(keys);
  }

  /** Scans the intents and drops the ones belonging to the transaction. */
  method DropIntents(s: State, txid: Key) returns (rest: map<Key, Intent>)
    ensures rest == s.intents - TxKeys(s, txid)
  {
    var q := NewIter(s.intents.Keys);
    rest := s.intents;
    for i := 0 to |q|
      invariant forall j :: 0 <= j < i && q[j] in rest ==> rest[q[j]].txid != txid
      invariant forall k :: k in s.intents && k !in rest ==> s.intents[k].txid == txid
      invariant forall k :: k in rest ==> k in s.intents && rest[k] == s.intents[k]
    {
      if q[i] in rest && rest[q[i]].txid == txid {
        rest := rest - {q[i]};
      }
    }
    assert forall k :: k in rest ==> k in q;
  }

  // --- walking the history -----------------------------------------------------------

  predicate Increasing(q: seq<nat>) {
    forall i, j :: 0 <= i < j < |q| ==> q[i] < q[j]
  }

  /** The defensive sort of one key's revisions. */
  method SortRevs(revs: set<nat>) returns (q: seq<nat>)
    ensures Increasing(q) && forall x :: x in q <==> x in revs
  {
    q := [];
    var todo := revs;
    while todo != {}
      invariant todo <= revs && Increasing(q)
      invariant forall x :: x in q <==> x in revs && x !in todo
      decreases todo
    {
      var x :| x in todo;
      var i := 0;
      while i < |q| && q[i] < x
        invariant i <= |q| && forall j :: 0 <= j < i ==> q[j] < x
      {
        i := i + 1;
      }
      assert i < |q| ==> q[i] in q;
      q := q[..i] + [x] + q[i..];
      todo := todo - {x};
    }
  }

  /** The versions of the whole history namespace. */
  method NewHistIter(s: State) returns (h: seq<Version>)
    requires U64(s)
    ensures forall v :: v in h <==> v in s.hist
  {
    h := HistScan(s.hist.Keys, []);
    forall v: Version ensures HasPrefix(HistKey(v), []) { assert HistKey(v)[..0] == []; }
  }

  /** A point read: the latest record, else the newest version at or below r. */
  method ReadVersion(s: State, k: Key, r: nat) returns (rec: Option<Record>)
    ensures rec == ReadAt(s, k, r)
  {
    if k in s.latest && s.latest[k].rev <= r { return Some(s.latest[k]); }
    var revs := SortRevs(set v | v in s.hist && v.key == k && v.rev <= r :: v.rev);
    ghost var found := NewestAt(s.hist, k, r);
    if found.Some? { assert Version(k, found.value).rev in revs; }
    if |revs| == 0 { return None; }
    var last := revs[|revs| - 1];
    assert last in revs;
    assert found == Some(last);
    var hv := s.hist[Version(k, last)];
    return if hv.deleted then None else Some(Record(hv.rev, hv.value, hv.blob));
  }

  /** Every retained revision, grouped by key. */
  method GroupByKey(s: State) returns (perKey: map<Key, set<nat>>)
    requires U64(s)
    ensures forall k, p :: (k in perKey && p in perKey[k]) <==> Version(k, p) in s.hist
  {
    var h := NewHistIter(s);
    perKey := map[];
    for i := 0 to |h|
      invariant forall k, p :: (k in perKey && p in perKey[k]) <==> Version(k, p) in h[..i]
    {
      var v := h[i];
      assert h[..i + 1] == h[..i] + [v] && v == Version(v.key, v.rev);
      perKey := perKey[v.key := (if v.key in perKey then perKey[v.key] else {}) + {v.rev}];
    }
    assert h[..|h|] == h;
  }

  ghost predicate AllRevs(s: State, k: Key, q: seq<nat>) {
    Increasing(q) && forall p: nat :: p in q <==> Version(k, p) in s.hist
  }

  /** The successor test of one version, as the loop computes it. */
  predicate Drops(s: State, k: Key, q: seq<nat>, i: nat, cutoff: nat)
    requires i < |q| && Version(k, q[i]) in s.hist
  {
    if i < |q| - 1 then q[i + 1] <= cutoff
    else if k in s.latest then s.latest[k].rev <= cutoff
    else s.hist[Version(k, q[i])].deleted && q[i] <= cutoff
  }

  lemma DropsIsPrunable(s: State, k: Key, q: seq<nat>, i: nat, cutoff: nat)
    requires AllRevs(s, k, q) && i < |q| && Version(k, q[i]) in s.hist
    ensures Drops(s, k, q, i, cutoff) <==> Prunable(s, cutoff, Version(k, q[i]))
  {
    var v := Version(k, q[i]);
    if i < |q| - 1 {
      assert q[i + 1] in q && Version(k, q[i + 1]) in s.hist;
      forall w | w in s.hist && w.key == k && v.rev < w.rev ensures q[i + 1] <= w.rev {
        assert w == Version(k, w.rev);
        var j :| 0 <= j < |q| && q[j] == w.rev;
      }
    } else {
      forall w | w in s.hist && w.key == k ensures w.rev <= v.rev {
        assert w == Version(k, w.rev);
        var j :| 0 <= j < |q| && q[j] == w.rev;
      }
    }
  }

  /** The versions of one key no admissible read needs. */
  method PruneKey(s: State, k: Key, revs: set<nat>, cutoff: nat) returns (gone: set<Version>)
    requires forall p: nat :: p in revs <==> Version(k, p) in s.hist
    ensures forall v :: v in gone <==> v.key == k && v in Prune(s, cutoff)
  {
    var q := SortRevs(revs);
    gone := {};
    for i := 0 to |q|
      invariant forall v :: v in gone ==> v.key == k && v in Prune(s, cutoff)
      invariant forall j :: 0 <= j < i && Version(k, q[j]) in Prune(s, cutoff) ==> Version(k, q[j]) in gone
    {
      assert q[i] in q;
      DropsIsPrunable(s, k, q, i, cutoff);
      if Drops(s, k, q, i, cutoff) { gone := gone + {Version(k, q[i])}; }
    }
    forall v: Version | v.key == k && v in Prune(s, cutoff) ensures v in gone {
      assert v == Version(k, v.rev) && v.rev in q;
    }
  }

  /** A whole pass over the history: every key's unreachable versions. */
  method PruneAll(s: State, cutoff: nat) returns (gone: set<Version>)
    requires U64(s)
    ensures gone == Prune(s, cutoff)
  {
    var perKey := GroupByKey(s);
    gone := {};
    var todo := perKey.Keys;
    while todo != {}
      invariant todo <= perKey.Keys
      invariant forall v :: v in gone <==> v in Prune(s, cutoff) && v.key in perKey && v.key !in todo
      decreases todo
    {
      var k :| k in todo;
      var some := PruneKey(s, k, perKey[k], cutoff);
      gone := gone + some;
      todo := todo - {k};
    }
    forall v | v in Prune(s, cutoff) ensures v.key in perKey {
      assert v == Version(v.key, v.rev);
    }
  }

  /** The first records of a range past a cursor. */
  method ListRangeFrom(s: State, range: Range, cursor: Key, limit: int) returns (out: seq<Entry>)
    ensures IsRangeListing(out, s, range, cursor, ClampLimit(limit))
  {
    // A cursor below the start would widen the range; it is ignored.
    var resume := cursor != [] && AtMost(range.start, cursor);
    var keys := set k | k in s.latest && range.Contains(k) && (!resume || Less(cursor, k));
    assert keys == RangeKeys(s, range, cursor) by {
      forall k | range.Contains(k) && cursor != [] && !resume ensures Less(cursor, k) {
        LessTotal(range.start, cursor);
        if range.start != k { LessTransitive(cursor, range.start, k); }
      }
    }
    out := ScanLatest(s, keys, ClampLimit(limit));
  }

  /** The iterator loop shared by the latest-record scans. */
  method ScanLatest(s: State, keys: set<Key>, max: nat) returns (out: seq<Entry>)
    requires forall k :: k in keys ==> k in s.latest
    ensures IsPage(Keys(out), keys, max)
    ensures forall i :: 0 <= i < |out| ==> Lookup(s.latest, out[i].key) == Some(out[i].record)
  {
    var q := Sorted(keys);
    out := TakeRecords(s, q, max);
    TakeIsPage(q, keys, max);
  }

  method TakeRecords(s: State, q: seq<Key>, max: nat) returns (out: seq<Entry>)
    requires forall k :: k in q ==> k in s.latest
    ensures Keys(out) == if |q| <= max then q else q[..max]
    ensures forall i :: 0 <= i < |out| ==> Lookup(s.latest, out[i].key) == Some(out[i].record)
  {
    out := [];
    var i := 0;
    while i < |q| && |out| < max
      invariant i == |out| <= |q| && i <= max && Keys(out) == q[..i]
      invariant forall j :: 0 <= j < |out| ==> Lookup(s.latest, out[j].key) == Some(out[j].record)
    {
      assert q[i] in q;
      out := out + [Entry(q[i], s.latest[q[i]])];
      i := i + 1;
    }
    assert q[..|q|] == q;
  }

  class StateMachine {
    const c: Config
    var db: State      // what Pebble has committed for the group
    var staged: State  // what it will hold once the open batch commits
    var rev: nat
    var cutoff: nat
    var freeze: Option<Range>

    /** Between entries the batch is empty and the mirrors match the records. */
    ghost predicate Valid()
      reads this
    {
      staged == db && rev == db.rev && cutoff == db.cutoff && freeze == db.freeze && U64(db)
    }

    /** Inside an entry: the mirrors match what the batch will commit. */
    ghost predicate Staging(s: State)
      reads this
    {
      db == s && rev == staged.rev && cutoff == staged.cutoff && freeze == staged.freeze
    }

    /** Opens the group from its persisted contents. */
    constructor (c: Config, disk: State)
      requires U64(disk)
      ensures Valid() && db == disk && this.c == c
    {
      this.c := c;
      db, staged := disk, disk;
      rev, cutoff, freeze := disk.rev, disk.cutoff, disk.freeze;
    }

    /** Reloads the mirrors after the raft layer replaced the contents. */
    method RefreshAfterRestore(disk: State)
      requires U64(disk)
      modifies this
      ensures Valid() && db == disk
    {
      db, staged := disk, disk;
      rev, cutoff, freeze := disk.rev, disk.cutoff, disk.freeze;
    }

    // --- record writes -------------------------------------------------------------

    method BumpRev(index: nat)
      requires Staging(db)
      modifies this
      ensures Staging(old(db)) && staged == old(staged).(rev := index)
    {
      rev := index;
      staged := staged.(rev := index);
    }

    method PutRecord(key: Key, rec: Record)
      requires Staging(db)
      modifies this
      ensures Staging(old(db)) && staged == StageOne(db, old(staged), rec.rev, TxWrite(key, rec.value, false, rec.blob))
    {
      if key in db.latest {
        ArchiveVersion(key, Archived(db.latest[key]));
      }
      staged := staged.(latest := staged.latest[key := rec]);
    }

    method DeleteRecord(key: Key, at: nat)
      requires Staging(db)
      modifies this
      ensures Staging(old(db)) && staged == StageOne(db, old(staged), at, DeleteOf(key))
    {
      if key in db.latest {
        ArchiveVersion(key, Archived(db.latest[key]));
        ArchiveVersion(key, Tombstone(at));
      }
      staged := staged.(latest := staged.latest - {key});
    }

    method ArchiveVersion(key: Key, hv: HistVersion)
      requires Staging(db)
      modifies this
      ensures Staging(old(db)) && staged == old(staged).(hist := old(staged).hist[Version(key, hv.rev) := hv])
    {
      staged := staged.(hist := staged.hist[Version(key, hv.rev) := hv]);
    }

    /** One transactional write, put or delete. */
    method WriteOne(w: TxWrite, at: nat)
      requires Staging(db)
      modifies this
      ensures Staging(old(db)) && staged == StageOne(db, old(staged), at, w)
    {
      if w.delete {
        DeleteRecord(w.key, at);
      } else {
        PutRecord(w.key, Record(at, w.value, w.blob));
      }
    }

    /** The put-or-delete loop over a write list. */
    method WriteAll(ws: seq<TxWrite>, at: nat)
      requires Staging(db) && staged.latest == db.latest && staged.hist == db.hist
      modifies this
      ensures Staging(old(db)) && staged == Overlay(old(staged), db, at, ws)
    {
      ghost var base, s := staged, db;
      for i := 0 to |ws|
        invariant Staging(s) && staged == Overlay(base, s, at, ws[..i])
      {
        var w := ws[i];
        OverlayStep(base, s, at, ws[..i], w);
        assert ws[..i + 1] == ws[..i] + [w];
        WriteOne(w, at);
      }
      assert ws[..|ws|] == ws;
    }

    // --- acceptance checks -----------------------------------------------------------

    method FrozenWrites(ws: seq<TxWrite>) returns (hit: bool)
      requires Valid()
      ensures hit <==> Kv.FrozenWrites(db, ws)
    {
      for i := 0 to |ws|
        invariant forall j :: 0 <= j < i ==> !Frozen(db, ws[j].key)
      {
        if freeze.Some? && freeze.value.Contains(ws[i].key) { return true; }
      }
      return false;
    }

    /** Visits the read set in no particular order. */
    method ValidateReads(seen: map<Key, nat>) returns (ok: bool)
      requires Valid()
      ensures ok <==> ReadsValid(db, seen)
    {
      var todo := seen.Keys;
      while todo != {}
        invariant todo <= seen.Keys
        invariant forall k :: k in seen && k !in todo ==> RevOf(db, k) == seen[k] && k !in db.intents
        decreases todo
      {
        var k :| k in todo;
        var cur := if k in db.latest then db.latest[k].rev else 0;
        if cur != seen[k] || k in db.intents { return false; }
        todo := todo - {k};
      }
      return true;
    }

    /** Scans the write list for a foreign intent or an oversized value. */
    method CheckWrites(txid: Option<Key>, ws: seq<TxWrite>) returns (bad: Option<Error>)
      requires Valid()
      ensures bad == BadWrite(c, db, txid, ws)
    {
      for i := 0 to |ws|
        invariant BadWrite(c, db, txid, ws) == BadWrite(c, db, txid, ws[i..])
      {
        assert ws[i..][0] == ws[i] && ws[i..][1..] == ws[i + 1..];
        var w := ws[i];
        if w.key in db.intents && (txid.None? || db.intents[w.key].txid != txid.value) { return Some(Conflict); }
        if TooLarge(c, w.value) { return Some(ValueTooLarge); }
      }
      return None;
    }

    // --- commands --------------------------------------------------------------------

    method ApplySet(index: nat, key: Key, value: Value, blob: bool) returns (res: Result)
      requires Valid()
      modifies this
      ensures Staging(old(db)) && staged == ApplyOp(c, db, index, Set(key, value, blob))
      ensures Answers(c, db, index, Set(key, value, blob), res)
    {
      if freeze.Some? && freeze.value.Contains(key) { return Rejected(ShardSplitting); }
      if TooLarge(c, value) { return Rejected(ValueTooLarge); }
      ghost var base := db.(rev := index);
      BumpRev(index);
      OverlayStep(base, db, index, [], TxWrite(key, value, false, blob));
      PutRecord(key, Record(index, value, blob));
      StageFrame(db, index, [TxWrite(key, value, false, blob)]);
      return Written(index);
    }

    method ApplyDelete(index: nat, key: Key) returns (res: Result)
      requires Valid()
      modifies this
      ensures Staging(old(db)) && staged == ApplyOp(c, db, index, Delete(key))
      ensures Answers(c, db, index, Delete(key), res)
    {
      if freeze.Some? && freeze.value.Contains(key) { return Rejected(ShardSplitting); }
      ghost var base := db.(rev := index);
      BumpRev(index);
      OverlayStep(base, db, index, [], DeleteOf(key));
      DeleteRecord(key, index);
      StageFrame(db, index, [DeleteOf(key)]);
      return Written(index);
    }

    /** Deletes, key by key, the committed records among the given keys. */
    method DeleteSpan(keys: set<Key>, at: nat)
      requires Staging(db) && staged.latest == db.latest && staged.hist == db.hist
      modifies this
      ensures Staging(old(db)) && staged == Overlay(old(staged), db, at, Deletes(Sorted(keys)))
    {
      DeleteEach(Sorted(keys), at);
    }

    method DeleteEach(q: seq<Key>, at: nat)
      requires Staging(db) && staged.latest == db.latest && staged.hist == db.hist
      modifies this
      ensures Staging(old(db)) && staged == Overlay(old(staged), db, at, Deletes(q))
    {
      ghost var base, s := staged, db;
      for i := 0 to |q|
        invariant Staging(s) && staged == Overlay(base, s, at, Deletes(q[..i]))
      {
        OverlayStep(base, s, at, Deletes(q[..i]), DeleteOf(q[i]));
        assert Deletes(q[..i + 1]) == Deletes(q[..i]) + [DeleteOf(q[i])];
        DeleteRecord(q[i], at);
      }
      assert q[..|q|] == q;
    }

    method ApplyDeleteRange(index: nat, start: Key, end: Key) returns (res: Result)
      requires Valid()
      modifies this
      ensures Staging(old(db)) && staged == ApplyOp(c, db, index, DeleteRange(start, end))
      ensures Answers(c, db, index, DeleteRange(start, end), res)
    {
      var fr := freeze;
      if fr.Some? && end != [] && Less(start, end) && Less(fr.value.start, end) && (fr.value.end == [] || Less(start, fr.value.end)) {
        return Rejected(ShardSplitting);
      }
      BumpRev(index);
      DeleteSpan((set k | k in db.latest && AtMost(start, k) && Less(k, end)), index);
      StageFrame(db, index, WritesOf(db, DeleteRange(start, end)));
      return Written(index);
    }

    method ApplyFreezeRange(index: nat, range: Range) returns (res: Result)
      requires Valid()
      modifies this
      ensures Staging(old(db)) && staged == ApplyOp(c, db, index, FreezeRange(range))
      ensures Answers(c, db, index, FreezeRange(range), res)
    {
      staged := staged.(freeze := Some(range));
      freeze := Some(range);
      BumpRev(index);
      return Written(index);
    }

    /** Clears a matching freeze and deletes the moved range, in one batch. */
    method ApplySplitCleanup(index: nat, range: Range) returns (res: Result)
      requires Valid()
      modifies this
      ensures Staging(old(db)) && staged == ApplyOp(c, db, index, SplitCleanup(range))
      ensures Answers(c, db, index, SplitCleanup(range), res)
    {
      if freeze.Some? && freeze.value.start == range.start && freeze.value.end == range.end {
        staged := staged.(freeze := None);
        freeze := None;
      }
      BumpRev(index);
      DeleteSpan((set k | k in db.latest && range.Contains(k)), index);
      StageFrame(db, index, WritesOf(db, SplitCleanup(range)));
      return Written(index);
    }

    method ApplyTxApply(index: nat, seen: map<Key, nat>, ws: seq<TxWrite>) returns (res: Result)
      requires Valid()
      modifies this
      ensures Staging(old(db)) && staged == ApplyOp(c, db, index, TxApply(seen, ws))
      ensures Answers(c, db, index, TxApply(seen, ws), res)
    {
      var hit := FrozenWrites(ws);
      if hit { return Rejected(ShardSplitting); }
      var ok := ValidateReads(seen);
      if !ok { return Rejected(Conflict); }
      var bad := CheckWrites(None, ws);
      if bad.Some? { return Rejected(bad.value); }
      BumpRev(index);
      WriteAll(ws, index);
      StageFrame(db, index, ws);
      return Written(index);
    }

    method ApplyTxPrepare(index: nat, txid: Key, seen: map<Key, nat>, ws: seq<TxWrite>) returns (res: Result)
      requires Valid()
      modifies this
      ensures Staging(old(db)) && staged == ApplyOp(c, db, index, TxPrepare(txid, seen, ws))
      ensures Answers(c, db, index, TxPrepare(txid, seen, ws), res)
    {
      var hit := FrozenWrites(ws);
      if hit { return Rejected(ShardSplitting); }
      var ok := ValidateReads(seen);
      if !ok { return Rejected(Conflict); }
      var bad := CheckWrites(Some(txid), ws);
      if bad.Some? { return Rejected(bad.value); }
      var intents := AddIntents(db.intents, txid, ws);
      staged := staged.(intents := intents);
      return Done;
    }

    method ApplyTxAbort(index: nat, txid: Key) returns (res: Result)
      requires Valid()
      modifies this
      ensures Staging(old(db)) && staged == ApplyOp(c, db, index, TxAbort(txid))
      ensures Answers(c, db, index, TxAbort(txid), res)
    {
      var intents := DropIntents(db, txid);
      staged := staged.(intents := intents);
      return Done;
    }

    method ApplyCopyIn(index: nat, pairs: map<Key, Record>) returns (res: Result)
      requires Valid()
      modifies this
      ensures Staging(old(db)) && staged == ApplyOp(c, db, index, CopyIn(pairs))
      ensures Answers(c, db, index, CopyIn(pairs), res)
    {
      var maxRev := MaxRev(pairs, rev);
      staged := staged.(latest := staged.latest + pairs);
      if maxRev > rev {
        rev := maxRev;
        staged := staged.(rev := maxRev);
      }
      return Written(rev);
    }

    /** Materializes the transaction's intents, each key once. */
    method ApplyTxCommit(index: nat, txid: Key) returns (res: Result)
      requires Valid()
      modifies this
      ensures Staging(old(db)) && staged == ApplyOp(c, db, index, TxCommit(txid))
      ensures Answers(c, db, index, TxCommit(txid), res)
    {
      ghost var s := db;
      var intents := DropIntents(db, txid);
      staged := staged.(intents := intents);
      BumpRev(index);
      WriteIntents(index, txid);
      StageFrame(s, index, CommitWrites(s, txid));
      return Written(index);
    }

    /** The scan over intents, skipping the ones of other transactions. */
    method WriteIntents(index: nat, txid: Key)
      requires Staging(db) && staged.latest == db.latest && staged.hist == db.hist
      modifies this
      ensures Staging(old(db)) && staged == Overlay(old(staged), db, index, CommitWrites(db, txid))
    {
      ghost var s, base := db, staged;
      var q := Sorted(db.intents.Keys);
      var seen: set<Key> := {};
      ghost var mine: seq<Key>, all: seq<TxWrite>, list: seq<TxWrite> := [], [], [];
      for i := 0 to |q|
        invariant Staging(s) && staged == Overlay(base, s, index, list)
        invariant OwnPrefix(s, txid, q, i, mine) && all == IntentWrites(s.intents, mine)
        invariant seen == WriteKeys(all) && list == FirstWins(all)
      {
        assert q[i] in q;
        var it := db.intents[q[i]];
        OwnStep(s, txid, q, i, mine);
        if it.txid == txid {
          seen, list := WriteUnseen(it.writes, index, seen, base, all, list);
          assert (mine + [q[i]])[..|mine|] == mine;
          all := all + it.writes;
          mine := mine + [q[i]];
        }
      }
      OwnAll(s, txid, q, mine);
    }

    /** The inner loop: writes whose key was not seen before are staged. */
    method WriteUnseen(ws: seq<TxWrite>, at: nat, seen0: set<Key>, ghost base: State, ghost before: seq<TxWrite>, ghost list0: seq<TxWrite>)
      returns (seen: set<Key>, ghost list: seq<TxWrite>)
      requires Staging(db) && seen0 == WriteKeys(before) && staged == Overlay(base, db, at, list0) && list0 == FirstWins(before)
      modifies this
      ensures Staging(old(db)) && seen == WriteKeys(before + ws)
      ensures staged == Overlay(base, db, at, list) && list == FirstWins(before + ws)
    {
      ghost var s, done := db, before;
      seen, list := seen0, list0;
      for i := 0 to |ws|
        invariant Staging(s) && seen == WriteKeys(done) && done + ws[i..] == before + ws
        invariant staged == Overlay(base, s, at, list) && list == FirstWins(done)
      {
        SliceMoves(done, ws, i);
        seen, list := WriteIfUnseen(ws[i], at, seen, base, done, list);
        done := done + [ws[i]];
      }
      SliceMoves(done, ws, |ws|);
    }

    method WriteIfUnseen(w: TxWrite, at: nat, seen0: set<Key>, ghost base: State, ghost done: seq<TxWrite>, ghost list0: seq<TxWrite>)
      returns (seen: set<Key>, ghost list: seq<TxWrite>)
      requires Staging(db) && seen0 == WriteKeys(done) && staged == Overlay(base, db, at, list0) && list0 == FirstWins(done)
      modifies this
      ensures Staging(old(db)) && seen == WriteKeys(done + [w])
      ensures staged == Overlay(base, db, at, list) && list == FirstWins(done + [w])
    {
      FirstWinsStep(done, w);
      seen, list := seen0, list0;
      if w.key !in seen {
        OverlayStep(base, db, at, list, w);
        WriteOne(w, at);
        seen, list := seen + {w.key}, list + [w];
      }
    }

    // --- the applied entry -------------------------------------------------------------

    /** Moves the horizon and prunes, at garbage collection indexes only. */
    method MaybeGC(index: nat)
      requires Staging(db) && staged.cutoff == db.cutoff && U64(db)
      modifies this
      ensures Staging(old(db))
      ensures var moved := NewCutoff(c, db.cutoff, index);
              staged == if moved.None? then old(staged)
                        else old(staged).(hist := old(staged).hist - Prune(db, moved.value), cutoff := moved.value)
    {
      if c.gcEvery == 0 || !Divides(c.gcEvery, index) { return; }
      if index <= c.historyRevisions { return; }
      var horizon := index - c.historyRevisions;
      if horizon <= cutoff { return; }
      var gone := PruneAll(db, horizon);
      staged := staged.(hist := staged.hist - gone, cutoff := horizon);
      cutoff := horizon;
    }

    method Dispatch(index: nat, op: Op) returns (res: Result)
      requires Valid()
      requires op.ListAt? ==> WellKeyed(db) && NulFree(op.prefix)
      modifies this
      ensures Staging(old(db)) && staged == ApplyOp(c, db, index, op)
      ensures Answers(c, db, index, op, res)
    {
      match op {
        case Get(key) => res := Read(Lookup(db.latest, key), rev);
        case GetAt(key, atRev) =>
          if atRev < cutoff { return Rejected(TxTooOld); }
          var rec := ReadVersion(db, key, atRev);
          res := Read(rec, atRev);
        case ListAt(prefix, cursor, limit, atRev) =>
          var r := if atRev == 0 then rev else atRev;
          if r < cutoff { return Rejected(TxTooOld); }
          var out := Scan.ListAt(db, prefix, cursor, limit, r);
          res := Page(out, r);
        case ListRange(range, cursor, limit) =>
          var out := ListRangeFrom(db, range, cursor, limit);
          res := Page(out, rev);
        case Set(key, value, blob) => res := ApplySet(index, key, value, blob);
        case Delete(key) => res := ApplyDelete(index, key);
        case DeleteRange(start, end) => res := ApplyDeleteRange(index, start, end);
        case TxApply(seen, writes) => res := ApplyTxApply(index, seen, writes);
        case TxPrepare(txid, seen, writes) => res := ApplyTxPrepare(index, txid, seen, writes);
        case TxCommit(txid) => res := ApplyTxCommit(index, txid);
        case TxAbort(txid) => res := ApplyTxAbort(index, txid);
        case FreezeRange(range) => res := ApplyFreezeRange(index, range);
        case SplitCleanup(range) => res := ApplySplitCleanup(index, range);
        case CopyIn(pairs) => res := ApplyCopyIn(index, pairs);
        case Unknown => res := Rejected(UnknownOp);
      }
    }

    /**
     One committed entry: the command, then garbage collection, then the
     atomic commit of the batch. The mirrors match the records again.
     */
    method Apply(index: nat, op: Op) returns (res: Result)
      requires Valid() && index < U64_LIMIT
      requires op.ListAt? ==> WellKeyed(db) && NulFree(op.prefix)
      requires op.CopyIn? ==> forall k :: k in op.pairs ==> op.pairs[k].rev < U64_LIMIT
      modifies this
      ensures Valid() && db == Kv.Apply(c, old(db), index, op)
      ensures Answers(c, old(db), index, op, res)
    {
      res := Dispatch(index, op);
      CutoffUntouched(c, db, index, op);
      MaybeGC(index);
      ApplyU64(c, db, index, op);
      db := staged;
    }
  }

  lemma CutoffUntouched(c: Config, s: State, n: nat, op: Op)
    ensures ApplyOp(c, s, n, op).cutoff == s.cutoff
  {
    StageFrame(s, n, WritesOf(s, op));
  }

  /** The transaction's own intent keys among the first i of the scan. */
  ghost predicate OwnPrefix(s: State, txid: Key, q: seq<Key>, i: nat, mine: seq<Key>) {
    && i <= |q| && Ascending(mine)
    && (forall k :: k in mine ==> k in s.intents && s.intents[k].txid == txid)
    && (forall k :: k in mine ==> k in q[..i])
    && (forall j :: 0 <= j < i && q[j] in s.intents && s.intents[q[j]].txid == txid ==> q[j] in mine)
  }

  lemma OwnStep(s: State, txid: Key, q: seq<Key>, i: nat, mine: seq<Key>)
    requires i < |q| && Ascending(q) && q[i] in s.intents && OwnPrefix(s, txid, q, i, mine)
    ensures OwnPrefix(s, txid, q, i + 1, if s.intents[q[i]].txid == txid then mine + [q[i]] else mine)
  {
    assert q[..i + 1] == q[..i] + [q[i]];
    AppendAscending(mine, q, i);
  }

  lemma OwnAll(s: State, txid: Key, q: seq<Key>, mine: seq<Key>)
    requires (forall k :: k in q <==> k in s.intents) && OwnPrefix(s, txid, q, |q|, mine)
    ensures mine == Sorted(TxKeys(s, txid))
  {
    forall k | k in TxKeys(s, txid) ensures k in mine {
      assert k in q;
    }
    SortedUnique(mine, TxKeys(s, txid));
  }

  lemma WriteKeysStep(done: seq<TxWrite>, w: TxWrite)
    ensures WriteKeys(done + [w]) == WriteKeys(done) + {w.key}
  {
    var all := done + [w];
    assert all[|all| - 1] == w && forall i :: 0 <= i < |done| ==> all[i] == done[i];
  }

  lemma SliceMoves(done: seq<TxWrite>, ws: seq<TxWrite>, i: nat)
    requires i <= |ws|
    ensures i < |ws| ==> done + [ws[i]] + ws[i + 1..] == done + ws[i..]
    ensures i == |ws| ==> done + ws[i..] == done
  {
  }

  lemma FirstWinsStep(done: seq<TxWrite>, w: TxWrite)
    ensures WriteKeys(done + [w]) == WriteKeys(done) + {w.key}
    ensures FirstWins(done + [w]) == if w.key in WriteKeys(done) then FirstWins(done) else FirstWins(done) + [w]
  {
    var all := done + [w];
    assert all[..|all| - 1] == done && all[|all| - 1] == w;
    assert forall i :: 0 <= i < |done| ==> all[i] == done[i];
  }

  lemma AppendAscending(mine: seq<Key>, q: seq<Key>, i: nat)
    requires i < |q| && Ascending(q) && Ascending(mine) && forall k :: k in mine ==> k in q[..i]
    ensures Ascending(mine + [q[i]])
  {
    forall j | 0 <= j < |mine| ensures Less(mine[j], q[i]) {
      assert mine[j] in mine;
      var m :| 0 <= m < i && q[..i][m] == mine[j];
    }
  }

  /** Only one ascending sequence lists a set. */
  lemma {:induction false} SortedUnique(q: seq<Key>, keys: set<Key>)
    requires Ascending(q) && forall k :: k in q <==> k in keys
    ensures q == Sorted(keys)
    decreases |q|
  {
    if q == [] {
      assert keys == {};
    } else {
      assert q[0] in q;
      assert IsLeast(q[0], keys) by {
        forall l | l in keys ensures AtMost(q[0], l) {
          var i :| 0 <= i < |q| && q[i] == l;
        }
      }
      LeastUnique(keys);
      forall k ensures k in q[1..] <==> k in keys - {q[0]} {
        LessIrreflexive(q[0]);
        if k in q[1..] {
          var i :| 0 <= i < |q| - 1 && q[1..][i] == k;
          assert q[i + 1] == k && Less(q[0], q[i + 1]);
        }
        if k in keys - {q[0]} {
          var i :| 0 <= i < |q| && q[i] == k;
          assert q[1..][i - 1] == k;
        }
      }
      SortedUnique(q[1..], keys - {q[0]});
      assert q == [q[0]] + q[1..];
    }
  }
}
