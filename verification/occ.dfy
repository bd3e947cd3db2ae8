/**
 Optimistic transactions inside one group: a transaction that read at a pinned
 revision and commits with tx_apply is serializable at its place in the log.
 Identifier allocation is the smallest such transaction.
 */
module Occ {
  import opened Bytes
  import opened Layout
  import opened Kv
  import opened Mvcc
  import opened History

  // --- records name the entry that wrote them ----------------------------------------

  /** A record no newer than r was already there when the group reached r. */
  lemma {:induction false} WrittenBefore(c: Config, log: Log, k: Key, r: nat)
    requires Indexed(log) && CleanLog(log)
    requires k in Run(c, log).latest && Run(c, log).latest[k].rev <= r
    ensures Lookup(Run(c, Upto(log, r)).latest, k) == Some(Run(c, log).latest[k])
    decreases |log|
  {
    if log != [] && r < LastIndex(log) {
      var prev, e := log[..|log| - 1], log[|log| - 1];
      EntryLatest(c, Run(c, prev), e.index, e.op, k);
      WrittenBefore(c, prev, k, r);
    }
  }

  lemma {:induction false} UptoIsPrefix(log: Log, r: nat)
    ensures |Upto(log, r)| <= |log| && Upto(log, r) == log[..|Upto(log, r)|]
    decreases |log|
  {
    if log != [] && r < LastIndex(log) {
      var prev := log[..|log| - 1];
      UptoIsPrefix(prev, r);
      assert prev[..|Upto(prev, r)|] == log[..|Upto(prev, r)|];
    }
  }

  lemma {:induction false} UptoOfPrefix(log: Log, r: nat, i: nat)
    requires |Upto(log, r)| <= i <= |log|
    ensures Upto(log[..i], r) == Upto(log, r)
    decreases |log|
  {
    if i == |log| {
      assert log[..i] == log;
    } else if log != [] && r < LastIndex(log) {
      UptoOfPrefix(log[..|log| - 1], r, i);
      assert log[..|log| - 1][..i] == log[..i];
    }
  }

  // --- pinned reads and commit -----------------------------------------------------------

  /** One get_at: answered after the first `at` entries of the log. */
  datatype Observation = Observation(at: nat, record: Option<Record>)

  function SeenRev(o: Observation): nat {
    if o.record.Some? then o.record.value.rev else 0
  }

  /** The reads of a transaction pinned at revision r, served from this log. */
  ghost predicate ServedAt(c: Config, log: Log, r: nat, obs: map<Key, Observation>) {
    forall k :: k in obs ==>
      && |Upto(log, r)| <= obs[k].at <= |log|
      && Run(c, log[..obs[k].at]).cutoff <= r
      && obs[k].record == ReadAt(Run(c, log[..obs[k].at]), k, r)
  }

  /** What the pin means: each read saw the state at revision r. */
  lemma ServedIsSnapshot(c: Config, log: Log, r: nat, obs: map<Key, Observation>, k: Key)
    requires Indexed(log) && CleanLog(log) && ServedAt(c, log, r, obs) && k in obs
    ensures obs[k].record == Lookup(Run(c, Upto(log, r)).latest, k)
  {
    PrefixOk(log, obs[k].at);
    TimeTravel(c, log[..obs[k].at], k, r);
    UptoOfPrefix(log, r, obs[k].at);
  }

  lemma AcceptedReads(c: Config, s: State, seen: map<Key, nat>, ws: seq<TxWrite>)
    requires Rejection(c, s, TxApply(seen, ws)).None?
    ensures forall k :: k in seen ==> RevOf(s, k) == seen[k]
  {
    assert ReadsValid(s, seen);
  }

  lemma UnchangedRead(c: Config, log: Log, r: nat, obs: map<Key, Observation>, k: Key)
    requires Indexed(log) && CleanLog(log) && ServedAt(c, log, r, obs) && k in obs
    requires RevOf(Run(c, log), k) == SeenRev(obs[k])
    ensures Lookup(Run(c, log).latest, k) == obs[k].record
  {
    RunInv(c, log);
    ServedIsSnapshot(c, log, r, obs, k);
    if obs[k].record.Some? {
      SnapshotRevs(c, log, r, k);
      WrittenBefore(c, log, k, r);
    }
  }

  /**
   Serializability in log order. If tx_apply accepts the read set of a
   transaction pinned at r, then re-reading at the commit point gives every
   record the transaction saw, present or absent.
   */
  lemma CommitSeesItsReads(c: Config, log: Log, r: nat, obs: map<Key, Observation>, ws: seq<TxWrite>)
    requires Indexed(log) && CleanLog(log) && ServedAt(c, log, r, obs)
    requires Rejection(c, Run(c, log), TxApply(map k | k in obs :: SeenRev(obs[k]), ws)).None?
    ensures forall k :: k in obs ==> Lookup(Run(c, log).latest, k) == obs[k].record
  {
    var seen := map k | k in obs :: SeenRev(obs[k]);
    AcceptedReads(c, Run(c, log), seen, ws);
    forall k | k in obs ensures Lookup(Run(c, log).latest, k) == obs[k].record {
      assert k in seen;
      UnchangedRead(c, log, r, obs, k);
    }
  }

  lemma SnapshotRevs(c: Config, log: Log, r: nat, k: Key)
    requires Indexed(log) && CleanLog(log) && k in Run(c, Upto(log, r)).latest
    ensures 1 <= Run(c, Upto(log, r)).latest[k].rev <= r
  {
    UptoIsPrefix(log, r);
    PrefixOk(log, |Upto(log, r)|);
    RunInv(c, Upto(log, r));
    UptoBound(log, r);
  }

  lemma {:induction false} UptoBound(log: Log, r: nat)
    ensures LastIndex(Upto(log, r)) <= r
    decreases |log|
  {
    if log != [] && r < LastIndex(log) { UptoBound(log[..|log| - 1], r); }
  }

  /**
   And nothing slipped in between: a key read as present was not written by
   any entry from the pinned revision to the commit.
   */
  lemma NoWriteInBetween(c: Config, log: Log, r: nat, obs: map<Key, Observation>, ws: seq<TxWrite>, k: Key, i: nat)
    requires Indexed(log) && CleanLog(log) && ServedAt(c, log, r, obs)
    requires Rejection(c, Run(c, log), TxApply(map l | l in obs :: SeenRev(obs[l]), ws)).None?
    requires k in obs && obs[k].record.Some? && |Upto(log, r)| <= i < |log|
    ensures LastWrite(Performed(c, Run(c, log[..i]), log[i].op), k).None?
    ensures Lookup(Run(c, log[..i]).latest, k) == obs[k].record
  {
    CommitSeesItsReads(c, log, r, obs, ws);
    ServedIsSnapshot(c, log, r, obs, k);
    SnapshotRevs(c, log, r, k);
    LateIndex(log, r, i);
    Unwritten(c, log, k, i);
  }

  /** Entries past the pinned revision have larger indexes. */
  lemma {:induction false} LateIndex(log: Log, r: nat, i: nat)
    requires Indexed(log) && |Upto(log, r)| <= i < |log|
    ensures r < log[i].index
    decreases |log|
  {
    if i < |log| - 1 { LateIndex(log[..|log| - 1], r, i); }
  }

  /** A live record older than entry i was left alone by it and all after it. */
  lemma {:induction false} Unwritten(c: Config, log: Log, k: Key, i: nat)
    requires Indexed(log) && CleanLog(log) && i < |log|
    requires k in Run(c, log).latest && Run(c, log).latest[k].rev < log[i].index
    ensures LastWrite(Performed(c, Run(c, log[..i]), log[i].op), k).None?
    ensures Lookup(Run(c, log[..i]).latest, k) == Some(Run(c, log).latest[k])
    decreases |log|
  {
    var prev, e := log[..|log| - 1], log[|log| - 1];
    EntryLatest(c, Run(c, prev), e.index, e.op, k);
    if i < |log| - 1 {
      IndexesGrow(log, i);
      Unwritten(c, prev, k, i);
      assert prev[..i] == log[..i];
    }
  }

  lemma {:induction false} IndexesGrow(log: Log, i: nat)
    requires Indexed(log) && i < |log| - 1
    ensures log[i].index < LastIndex(log)
    decreases |log|
  {
    if i < |log| - 2 { IndexesGrow(log[..|log| - 1], i); }
  }

  /**
   Without the increasing revisions of CleanLog the check is blind: a record
   imported at revision 2 and a write at index 2 carry the same revision, so a
   transaction that read the first commits over the second.
   */
  lemma ImportedRevisionIsReused(c: Config, log: Log, imported: Record)
    requires c == DEFAULT_CONFIG && imported == Record(2, [1], false)
    requires log == [Logged(1, CopyIn(map[A := imported])), Logged(2, Set(A, [9], false))]
    ensures Lookup(Run(c, log[..1]).latest, A) == Some(imported)
    ensures Lookup(Run(c, log).latest, A) == Some(Record(2, [9], false))
    ensures Rejection(c, Run(c, log), TxApply(map[A := imported.rev], [])).None?
  {
    var one := log[..1];
    assert one[..0] == [] && log[..1] == one;
    var s1 := State(map[A := imported], map[], map[], 2, 0, None);
    assert A in map[A := imported];
    assert Run(c, one) == Apply(c, EMPTY, 1, log[0].op) == s1 by {
      assert WritesOf(EMPTY, log[0].op) == [];
    }
    var s2 := Run(c, log);
    assert s2 == Apply(c, s1, 2, log[1].op);
    SingleWrite(s1, 2, TxWrite(A, [9], false, false));
    assert s2.latest == map[A := Record(2, [9], false)] && s2.intents == map[];
  }

  // --- when the read check is blind ----------------------------------------------------------

  /** The entry writes k, as an import or at its own revision. */
  predicate WritesKey(c: Config, s: State, op: Op, k: Key) {
    if op.CopyIn? then k in op.pairs else LastWrite(Performed(c, s, op), k).Some?
  }

  /** The revision a transaction would record for k right after the entry. */
  function RevLeft(c: Config, s: State, n: nat, op: Op, k: Key): nat
    requires WritesKey(c, s, op, k)
  {
    if op.CopyIn? then op.pairs[k].rev
    else if LastWrite(Performed(c, s, op), k).value.delete then 0
    else n
  }

  lemma EntryRev(c: Config, s: State, n: nat, op: Op, k: Key)
    ensures WritesKey(c, s, op, k) ==> RevOf(Apply(c, s, n, op), k) == RevLeft(c, s, n, op, k)
    ensures !WritesKey(c, s, op, k) ==> Lookup(Apply(c, s, n, op).latest, k) == Lookup(s.latest, k)
  {
    if op.CopyIn? {
      ApplyPrunes(c, s, n, op);
    } else {
      EntryLatest(c, s, n, op, k);
    }
  }

  /**
   One entry: a write of k at its own revision goes unnoticed by a transaction
   that read k if and only if it puts k at the revision read, or removes a key
   read as absent.
   */
  lemma WriteUnnoticedIff(c: Config, s: State, n: nat, op: Op, k: Key)
    requires !op.CopyIn? && LastWrite(Performed(c, s, op), k).Some?
    ensures RevOf(Apply(c, s, n, op), k) == RevOf(s, k) <==>
            RevOf(s, k) == if LastWrite(Performed(c, s, op), k).value.delete then 0 else n
  {
    EntryRev(c, s, n, op, k);
  }

  ghost predicate WrittenAt(c: Config, log: Log, j: nat, k: Key) {
    j < |log| && WritesKey(c, Run(c, log[..j]), log[j].op, k)
  }

  /** The last entry from position i on that writes k. */
  ghost function LastWriter(c: Config, log: Log, i: nat, k: Key): (j: Option<nat>)
    ensures j.Some? ==> i <= j.value && WrittenAt(c, log, j.value, k)
    decreases |log|
  {
    if |log| <= i then None
    else if WrittenAt(c, log, |log| - 1, k) then Some(|log| - 1)
    else
      var prev := log[..|log| - 1];
      var j := LastWriter(c, prev, i, k);
      assert j.Some? ==> prev[..j.value] == log[..j.value];
      j
  }

  ghost function RevLeftAt(c: Config, log: Log, j: nat, k: Key): nat
    requires WrittenAt(c, log, j, k)
  {
    RevLeft(c, Run(c, log[..j]), log[j].index, log[j].op, k)
  }

  lemma RevLeftPrefix(c: Config, log: Log, i: nat, k: Key)
    requires i < |log| && !WrittenAt(c, log, |log| - 1, k)
    ensures var j := LastWriter(c, log, i, k);
            j == LastWriter(c, log[..|log| - 1], i, k) && (j.Some? ==> RevLeftAt(c, log, j.value, k) == RevLeftAt(c, log[..|log| - 1], j.value, k))
  {
    var prev := log[..|log| - 1];
    var j := LastWriter(c, prev, i, k);
    if j.Some? { assert prev[..j.value] == log[..j.value] && prev[j.value] == log[j.value]; }
  }

  lemma {:induction false} RevAfter(c: Config, log: Log, i: nat, k: Key)
    requires i <= |log|
    ensures var j := LastWriter(c, log, i, k);
            && (j.None? ==> Lookup(Run(c, log).latest, k) == Lookup(Run(c, log[..i]).latest, k))
            && (j.Some? ==> RevOf(Run(c, log), k) == RevLeftAt(c, log, j.value, k))
    decreases |log|
  {
    if i == |log| {
      assert log[..i] == log;
    } else {
      var prev, e := log[..|log| - 1], log[|log| - 1];
      EntryRev(c, Run(c, prev), e.index, e.op, k);
      if !WrittenAt(c, log, |log| - 1, k) {
        RevAfter(c, prev, i, k);
        assert prev[..i] == log[..i];
        RevLeftPrefix(c, log, i, k);
      }
    }
  }

  /** A read set: each key as the group held it after some prefix of the log. */
  ghost function SeenAt(c: Config, log: Log, at: map<Key, nat>): map<Key, nat>
    requires forall k :: k in at ==> at[k] <= |log|
  {
    map k | k in at :: RevOf(Run(c, log[..at[k]]), k)
  }

  /**
   Any log, imports included: the read check of a commit passes if and only if
   no read key carries an intent and the last write of each since it was read,
   if there is one, left exactly the revision that was read.
   */
  lemma CheckPassesIff(c: Config, log: Log, at: map<Key, nat>)
    requires forall k :: k in at ==> at[k] <= |log|
    ensures ReadsValid(Run(c, log), SeenAt(c, log, at)) <==>
            forall k :: k in at ==>
              && k !in Run(c, log).intents
              && var j := LastWriter(c, log, at[k], k);
                 j.Some? ==> RevLeftAt(c, log, j.value, k) == RevOf(Run(c, log[..at[k]]), k)
  {
    var seen := SeenAt(c, log, at);
    forall k | k in at
      ensures var j := LastWriter(c, log, at[k], k);
              RevOf(Run(c, log), k) == seen[k] <==> (j.Some? ==> RevLeftAt(c, log, j.value, k) == seen[k])
    {
      RevAfter(c, log, at[k], k);
    }
  }

  predicate NoImports(log: Log) {
    forall i :: 0 <= i < |log| ==> !log[i].op.CopyIn?
  }

  /** However the log goes on without imports, a write of k is noticed. */
  ghost predicate Guarded(c: Config, log: Log, k: Key) {
    forall more {:trigger Unnoticed(c, log, k, more)} :: !Unnoticed(c, log, k, more)
  }

  ghost predicate Unnoticed(c: Config, log: Log, k: Key, more: Log) {
    && Indexed(log + more) && NoImports(more)
    && LastWriter(c, log + more, |log|, k).Some?
    && RevOf(Run(c, log + more), k) == RevOf(Run(c, log), k)
  }

  lemma {:induction false} LaterIndex(log: Log, more: Log, j: nat)
    requires Indexed(log + more) && |log| <= j < |log + more|
    ensures LastIndex(log) < (log + more)[j].index
    decreases |more|
  {
    var all, init := log + more, more[..|more| - 1];
    assert all[..|all| - 1] == log + init;
    if j < |all| - 1 {
      LaterIndex(log, init, j);
    } else if init != [] {
      LaterIndex(log, init, |log + init| - 1);
    } else {
      assert log + init == log;
    }
  }

  lemma LeavesIndex(c: Config, log: Log, j: nat, k: Key)
    requires WrittenAt(c, log, j, k) && !log[j].op.CopyIn?
    ensures RevLeftAt(c, log, j, k) == 0 || RevLeftAt(c, log, j, k) == log[j].index
  {
  }

  lemma NotUnnoticed(c: Config, log: Log, k: Key, more: Log)
    requires 0 < RevOf(Run(c, log), k) <= LastIndex(log)
    ensures !Unnoticed(c, log, k, more)
  {
    var all := log + more;
    if Indexed(all) && NoImports(more) && LastWriter(c, all, |log|, k).Some? {
      var j := LastWriter(c, all, |log|, k).value;
      assert all[j] == more[j - |log|];
      LeavesIndex(c, all, j, k);
      LaterIndex(log, more, j);
      RevAfter(c, all, |log|, k);
    }
  }

  lemma RewriteUnnoticed(c: Config, log: Log, k: Key)
    requires Indexed(log) && LastIndex(log) < RevOf(Run(c, log), k) && !Frozen(Run(c, log), k)
    ensures Unnoticed(c, log, k, [Logged(RevOf(Run(c, log), k), Set(k, [], false))])
  {
    var s, n, op := Run(c, log), RevOf(Run(c, log), k), Set(k, [], false);
    var all := log + [Logged(n, op)];
    assert all[..|all| - 1] == log && all[..|log|] == log && all[|log|] == Logged(n, op);
    assert Performed(c, s, op) == [TxWrite(k, [], false, false)];
    EntryRev(c, s, n, op, k);
    assert WrittenAt(c, all, |log|, k);
  }

  /** A prepared transaction would put k when it commits. */
  ghost predicate PendingPut(s: State, k: Key) {
    exists txid {:trigger CommitWrites(s, txid)} ::
      LastWrite(CommitWrites(s, txid), k).Some? && !LastWrite(CommitWrites(s, txid), k).value.delete
  }

  lemma {:induction false} LastWriteMentions(ws: seq<TxWrite>, k: Key)
    requires LastWrite(ws, k).Some?
    ensures exists i :: 0 <= i < |ws| && ws[i].key == k
    decreases |ws|
  {
    if ws[|ws| - 1].key != k {
      LastWriteMentions(ws[..|ws| - 1], k);
      var i :| 0 <= i < |ws| - 1 && ws[..|ws| - 1][i].key == k;
      assert ws[i].key == k;
    }
  }

  /** Under a freeze only the commit of a prepared transaction can put a key. */
  lemma FrozenPut(c: Config, s: State, op: Op, k: Key)
    requires Frozen(s, k) && !op.CopyIn?
    requires LastWrite(Performed(c, s, op), k).Some? && !LastWrite(Performed(c, s, op), k).value.delete
    ensures PendingPut(s, k)
  {
    var ws := WritesOf(s, op);
    LastWriteMentions(ws, k);
    match op
    case TxCommit(txid) => assert ws == CommitWrites(s, txid);
    case DeleteRange(_, _) => DeletesOnlyDelete(ws, k);
    case SplitCleanup(_) => DeletesOnlyDelete(ws, k);
    case Delete(_) => DeletesOnlyDelete(ws, k);
    case _ =>
  }

  /** With no index in between, only the very next entry can reuse the revision. */
  lemma NextIsTheWriter(c: Config, log: Log, k: Key, more: Log)
    requires Unnoticed(c, log, k, more) && RevOf(Run(c, log), k) == LastIndex(log) + 1
    ensures more != [] && !more[0].op.CopyIn?
    ensures LastWrite(Performed(c, Run(c, log), more[0].op), k).Some? && !LastWrite(Performed(c, Run(c, log), more[0].op), k).value.delete
  {
    var all := log + more;
    var j := LastWriter(c, all, |log|, k).value;
    RevAfter(c, all, |log|, k);
    assert all[j] == more[j - |log|];
    NextIndex(log, more, j);
    assert all[..|log|] == log;
  }

  lemma NextIndex(log: Log, more: Log, j: nat)
    requires Indexed(log + more) && |log| <= j < |log + more| && (log + more)[j].index <= LastIndex(log) + 1
    ensures j == |log|
  {
    if |log| < j {
      LaterIndex(log, more, |log|);
      PrefixIndexed(log + more, j + 1);
      IndexesGrow((log + more)[..j + 1], |log|);
    }
  }

  lemma {:induction false} PrefixIndexed(log: Log, i: nat)
    requires Indexed(log) && i <= |log|
    ensures Indexed(log[..i])
    decreases |log|
  {
    if i == |log| {
      assert log[..i] == log;
    } else {
      PrefixIndexed(log[..|log| - 1], i);
      assert log[..|log| - 1][..i] == log[..i];
    }
  }

  lemma CommitUnnoticed(c: Config, log: Log, k: Key, txid: Key)
    requires Indexed(log) && RevOf(Run(c, log), k) == LastIndex(log) + 1
    requires LastWrite(CommitWrites(Run(c, log), txid), k).Some? && !LastWrite(CommitWrites(Run(c, log), txid), k).value.delete
    ensures Unnoticed(c, log, k, [Logged(LastIndex(log) + 1, TxCommit(txid))])
  {
    var s, n, op := Run(c, log), LastIndex(log) + 1, TxCommit(txid);
    var all := log + [Logged(n, op)];
    assert all[..|all| - 1] == log && all[..|log|] == log && all[|log|] == Logged(n, op);
    EntryRev(c, s, n, op, k);
    assert WrittenAt(c, all, |log|, k);
  }

  /** Any freeze that leaves the key out unfreezes it. */
  function Elsewhere(k: Key): Range {
    Range(k + [0], [])
  }

  lemma Unfreezes(c: Config, s: State, n: nat, k: Key)
    ensures var t := Apply(c, s, n, FreezeRange(Elsewhere(k))); !Frozen(t, k) && Lookup(t.latest, k) == Lookup(s.latest, k)
  {
    var op := FreezeRange(Elsewhere(k));
    EntryLatest(c, s, n, op, k);
    ApplyPrunes(c, s, n, op);
    ShorterIsLess(k);
  }

  lemma {:induction false} ShorterIsLess(k: Key)
    ensures !AtMost(k + [0], k)
    decreases |k|
  {
    if k != [] {
      ShorterIsLess(k[1..]);
      assert (k + [0])[1..] == k[1..] + [0];
    }
  }

  lemma ThawedUnnoticed(c: Config, log: Log, k: Key)
    requires Indexed(log) && LastIndex(log) + 1 < RevOf(Run(c, log), k)
    ensures !Guarded(c, log, k)
  {
    var thaw := Logged(LastIndex(log) + 1, FreezeRange(Elsewhere(k)));
    var put := Logged(RevOf(Run(c, log), k), Set(k, [], false));
    var thawed := log + [thaw];
    assert thawed[..|thawed| - 1] == log;
    Unfreezes(c, Run(c, log), thaw.index, k);
    RewriteUnnoticed(c, thawed, k);
    assert log + ([thaw] + [put]) == thawed + [put];
    WriterSince(c, thawed + [put], |log|, |thawed|, k);
    NoImportsJoin([thaw], [put]);
    assert Unnoticed(c, log, k, [thaw] + [put]);
  }

  lemma NoImportsJoin(a: Log, b: Log)
    requires NoImports(a) && NoImports(b)
    ensures NoImports(a + b)
  {
    forall i | 0 <= i < |a + b| ensures !(a + b)[i].op.CopyIn? {
      assert (a + b)[i] == if i < |a| then a[i] else b[i - |a|];
    }
  }

  lemma {:induction false} WriterSince(c: Config, log: Log, i: nat, j: nat, k: Key)
    requires i <= j && LastWriter(c, log, j, k).Some?
    ensures LastWriter(c, log, i, k).Some?
    decreases |log|
  {
    if !WrittenAt(c, log, |log| - 1, k) { WriterSince(c, log[..|log| - 1], i, j, k); }
  }

  /**
   What a reader can check: a key it read as present stays guarded against
   every later write, imports apart, if and only if the revision it read is no
   larger than the raft index reached, or is the next index while the key is
   frozen and no prepared transaction puts it.
   */
  lemma GuardedIff(c: Config, log: Log, k: Key)
    requires Indexed(log) && 0 < RevOf(Run(c, log), k)
    ensures Guarded(c, log, k) <==>
            var rev, last := RevOf(Run(c, log), k), LastIndex(log);
            rev <= last || (rev == last + 1 && Frozen(Run(c, log), k) && !PendingPut(Run(c, log), k))
  {
    var s, rev, last := Run(c, log), RevOf(Run(c, log), k), LastIndex(log);
    if rev <= last {
      forall more ensures !Unnoticed(c, log, k, more) { NotUnnoticed(c, log, k, more); }
    } else if !Frozen(s, k) {
      RewriteUnnoticed(c, log, k);
    } else if last + 1 < rev {
      ThawedUnnoticed(c, log, k);
    } else if PendingPut(s, k) {
      var txid :| LastWrite(CommitWrites(s, txid), k).Some? && !LastWrite(CommitWrites(s, txid), k).value.delete;
      CommitUnnoticed(c, log, k, txid);
    } else {
      forall more: Log ensures !Unnoticed(c, log, k, more) {
        if Unnoticed(c, log, k, more) {
          NextIsTheWriter(c, log, k, more);
          FrozenPut(c, s, more[0].op, k);
        }
      }
    }
  }

  /** Against imports nothing guards: one can bring any record at the revision read. */
  lemma ImportUnnoticed(c: Config, log: Log, k: Key, imported: Record)
    requires imported.rev == RevOf(Run(c, log), k)
    ensures var all := log + [Logged(LastIndex(log) + 1, CopyIn(map[k := imported]))];
            Lookup(Run(c, all).latest, k) == Some(imported) && RevOf(Run(c, all), k) == RevOf(Run(c, log), k)
  {
    var e := Logged(LastIndex(log) + 1, CopyIn(map[k := imported]));
    assert (log + [e])[..|log + [e]| - 1] == log;
    EntryRev(c, Run(c, log), e.index, e.op, k);
    ApplyPrunes(c, Run(c, log), e.index, e.op);
  }

  // --- allocating identifiers ------------------------------------------------------------

  /** How the counter is written as a value. */
  datatype Codec = Codec(enc: nat -> Value, dec: Value -> nat)

  ghost predicate Faithful(codec: Codec) {
    forall n: nat :: codec.dec(codec.enc(n)) == n
  }

  /** The next identifier a reader of this state would hand out. */
  function Counter(codec: Codec, s: State, key: Key, first: nat): nat {
    if key in s.latest then codec.dec(s.latest[key].value) else first
  }

  /** The compare-and-swap proposed after reading the counter from state s. */
  function Allocation(codec: Codec, s: State, key: Key, first: nat): Op {
    TxApply(map[key := RevOf(s, key)], [TxWrite(key, codec.enc(Counter(codec, s, key, first) + 1), false, false)])
  }

  /** Entry i allocates, from a reading of the counter made after `at` entries. */
  ghost predicate AllocatesFrom(c: Config, codec: Codec, key: Key, first: nat, log: Log, i: nat, at: nat)
    requires i < |log|
  {
    at <= i && log[i].op == Allocation(codec, Run(c, log[..at]), key, first)
  }

  /** Only allocations write the counter; their readings may be arbitrarily stale. */
  ghost predicate CounterLog(c: Config, codec: Codec, key: Key, first: nat, log: Log) {
    && Indexed(log) && CleanLog(log)
    && forall i {:trigger CounterEntry(c, codec, key, first, log, i)} :: 0 <= i < |log| ==> CounterEntry(c, codec, key, first, log, i)
  }

  ghost predicate CounterEntry(c: Config, codec: Codec, key: Key, first: nat, log: Log, i: nat)
    requires i < |log|
  {
    || LastWrite(Performed(c, Run(c, log[..i]), log[i].op), key).None?
    || exists at :: AllocatesFrom(c, codec, key, first, log, i, at)
  }

  ghost predicate Committed(c: Config, log: Log, i: nat)
    requires i < |log|
  {
    Rejection(c, Run(c, log[..i]), log[i].op).None?
  }

  /** However stale the reading, a committed allocation read the current counter. */
  lemma AllocationIsFresh(c: Config, codec: Codec, key: Key, first: nat, log: Log, i: nat, at: nat)
    requires Indexed(log) && CleanLog(log) && i < |log|
    requires AllocatesFrom(c, codec, key, first, log, i, at) && Committed(c, log, i)
    ensures Lookup(Run(c, log[..at]).latest, key) == Lookup(Run(c, log[..i]).latest, key)
  {
    AcceptedReads(c, Run(c, log[..i]), log[i].op.seen, log[i].op.writes);
    assert key in log[i].op.seen;
    SameRevSameRecord(c, log, i, at, key);
  }

  lemma SameRevSameRecord(c: Config, log: Log, i: nat, at: nat, key: Key)
    requires Indexed(log) && CleanLog(log) && at <= i <= |log|
    requires RevOf(Run(c, log[..i]), key) == RevOf(Run(c, log[..at]), key)
    ensures Lookup(Run(c, log[..at]).latest, key) == Lookup(Run(c, log[..i]).latest, key)
  {
    PrefixOk(log, at);
    PrefixOk(log, i);
    RunInv(c, log[..at]);
    RunInv(c, log[..i]);
    if key in Run(c, log[..i]).latest && at < i {
      IndexAfterPrefix(log, at);
      Unwritten(c, log[..i], key, at);
      assert log[..i][..at] == log[..at];
    }
  }

  lemma {:induction false} IndexAfterPrefix(log: Log, at: nat)
    requires Indexed(log) && at < |log|
    ensures LastIndex(log[..at]) < log[at].index
    decreases |log|
  {
    if at < |log| - 1 {
      IndexAfterPrefix(log[..|log| - 1], at);
      assert log[..|log| - 1][..at] == log[..at];
    }
  }

  lemma AllocationBumps(c: Config, codec: Codec, key: Key, first: nat, log: Log, i: nat, at: nat)
    requires Faithful(codec) && CounterLog(c, codec, key, first, log) && i < |log|
    requires AllocatesFrom(c, codec, key, first, log, i, at) && Committed(c, log, i)
    ensures Counter(codec, Run(c, log[..at]), key, first) == Counter(codec, Run(c, log[..i]), key, first)
    ensures Counter(codec, Run(c, log[..i + 1]), key, first) == Counter(codec, Run(c, log[..i]), key, first) + 1
  {
    AllocationIsFresh(c, codec, key, first, log, i, at);
    RunPrefixStep(c, log, i);
    SwapWrites(c, Run(c, log[..i]), log[i].index, log[i].op.seen, log[i].op.writes[0]);
  }

  lemma RunPrefixStep(c: Config, log: Log, i: nat)
    requires i < |log|
    ensures Run(c, log[..i + 1]) == Apply(c, Run(c, log[..i]), log[i].index, log[i].op)
  {
    var p := log[..i + 1];
    assert p[..|p| - 1] == log[..i];
  }

  lemma SwapWrites(c: Config, s: State, n: nat, seen: map<Key, nat>, w: TxWrite)
    requires Rejection(c, s, TxApply(seen, [w])).None? && !w.delete
    ensures Lookup(Apply(c, s, n, TxApply(seen, [w])).latest, w.key) == Some(Record(n, w.value, w.blob))
  {
    EntryLatest(c, s, n, TxApply(seen, [w]), w.key);
  }

  /** The counter once the first i entries applied. */
  ghost function CounterAt(c: Config, codec: Codec, key: Key, first: nat, log: Log, i: nat): nat
    requires i <= |log|
  {
    Counter(codec, Run(c, log[..i]), key, first)
  }

  lemma CounterStep(c: Config, codec: Codec, key: Key, first: nat, log: Log, i: nat)
    requires Faithful(codec) && CounterLog(c, codec, key, first, log) && i < |log|
    ensures CounterAt(c, codec, key, first, log, i) <= CounterAt(c, codec, key, first, log, i + 1)
  {
    var s, e := Run(c, log[..i]), log[i];
    assert CounterEntry(c, codec, key, first, log, i);
    RunPrefixStep(c, log, i);
    EntryLatest(c, s, e.index, e.op, key);
    if LastWrite(Performed(c, s, e.op), key).Some? {
      var at :| AllocatesFrom(c, codec, key, first, log, i, at);
      AllocationBumps(c, codec, key, first, log, i, at);
    }
  }

  lemma {:induction false} CounterGrows(c: Config, codec: Codec, key: Key, first: nat, log: Log, i: nat, j: nat)
    requires Faithful(codec) && CounterLog(c, codec, key, first, log) && i <= j <= |log|
    ensures CounterAt(c, codec, key, first, log, i) <= CounterAt(c, codec, key, first, log, j)
    decreases j - i
  {
    if i < j {
      CounterGrows(c, codec, key, first, log, i, j - 1);
      CounterStep(c, codec, key, first, log, j - 1);
    }
  }

  /** Once an allocation committed, its identifier stays below the counter. */
  lemma AllocationPassed(c: Config, codec: Codec, key: Key, first: nat, log: Log, i: nat, at: nat, j: nat)
    requires Faithful(codec) && CounterLog(c, codec, key, first, log) && i < j <= |log|
    requires AllocatesFrom(c, codec, key, first, log, i, at) && Committed(c, log, i)
    ensures Counter(codec, Run(c, log[..at]), key, first) < Counter(codec, Run(c, log[..j]), key, first)
  {
    AllocationBumps(c, codec, key, first, log, i, at);
    CounterGrows(c, codec, key, first, log, i + 1, j);
  }

  /**
   No identifier is handed out twice. Any number of allocators may race with
   arbitrarily stale readings: the identifiers of committed allocations are
   strictly increasing in commit order.
   */
  lemma AllocationsIncrease(c: Config, codec: Codec, key: Key, first: nat, log: Log, i: nat, at: nat, j: nat, at': nat)
    requires Faithful(codec) && CounterLog(c, codec, key, first, log) && i < j < |log|
    requires AllocatesFrom(c, codec, key, first, log, i, at) && Committed(c, log, i)
    requires AllocatesFrom(c, codec, key, first, log, j, at') && Committed(c, log, j)
    ensures Counter(codec, Run(c, log[..at]), key, first) < Counter(codec, Run(c, log[..at']), key, first)
  {
    AllocationPassed(c, codec, key, first, log, i, at, j);
    AllocationBumps(c, codec, key, first, log, j, at');
  }
}
