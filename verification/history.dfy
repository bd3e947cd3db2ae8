/**
 Whole logs. A versioned read of the present state is a plain read of a past
 one: this module relates the two over every log, and pins down the two kinds
 of log for which the code does not deliver it.
 */
module History {
  import opened Bytes
  import opened Layout
  import opened Kv
  import opened Mvcc

  /** One committed raft entry that reached Apply. */
  datatype Logged = Logged(index: nat, op: Op)

  type Log = seq<Logged>

  /** The state after applying a log to an empty group. */
  ghost function Run(c: Config, log: Log): State
    decreases |log|
  {
    if log == [] then EMPTY
    else
      var e := log[|log| - 1];
      Apply(c, Run(c, log[..|log| - 1]), e.index, e.op)
  }

  function LastIndex(log: Log): nat {
    if log == [] then 0 else log[|log| - 1].index
  }

  /** Raft hands out strictly increasing indexes, from 1. */
  predicate Indexed(log: Log)
    decreases |log|
  {
    log == [] || (LastIndex(log[..|log| - 1]) < LastIndex(log) && Indexed(log[..|log| - 1]))
  }

  /** The entries applied once the group had reached revision r. */
  function Upto(log: Log, r: nat): Log
    decreases |log|
  {
    if log == [] || LastIndex(log) <= r then log else Upto(log[..|log| - 1], r)
  }

  /** A write list that deletes a key and then puts it back. */
  predicate Resurrects(ws: seq<TxWrite>, k: Key) {
    DeletedIn(ws, k) && LastWrite(ws, k).Some? && !LastWrite(ws, k).value.delete
  }

  /** What a caller can check of a command before proposing it. */
  ghost predicate Clean(op: Op) {
    !op.CopyIn? && (op.TxApply? ==> forall k :: !Resurrects(op.writes, k))
  }

  ghost predicate CleanLog(log: Log) {
    forall i :: 0 <= i < |log| ==> Clean(log[i].op)
  }

  /** No live revision doubles as an archived one. */
  ghost predicate NoShadow(s: State) {
    forall k :: k in s.latest ==> Version(k, s.latest[k].rev) !in s.hist
  }

  // --- clean commands keep live revisions out of the history -------------------

  lemma {:induction false} FirstWinsOnce(ws: seq<TxWrite>, k: Key)
    ensures LastWrite(FirstWins(ws), k).Some? ==> exists i :: 0 <= i < |ws| && ws[i].key == k
    ensures !Resurrects(FirstWins(ws), k)
    decreases |ws|
  {
    if ws != [] {
      var rest, w := ws[..|ws| - 1], ws[|ws| - 1];
      FirstWinsOnce(rest, k);
      assert forall i :: 0 <= i < |rest| ==> rest[i] == ws[i];
      DeletedInWritten(FirstWins(rest), k);
      var out := FirstWins(rest) + [w];
      assert out[..|out| - 1] == FirstWins(rest);
    }
  }

  lemma {:induction false} DeletesOnlyDelete(ws: seq<TxWrite>, k: Key)
    requires forall i :: 0 <= i < |ws| ==> ws[i].delete
    ensures LastWrite(ws, k).Some? ==> LastWrite(ws, k).value.delete
    decreases |ws|
  {
    if ws != [] { DeletesOnlyDelete(ws[..|ws| - 1], k); }
  }

  lemma CleanWrites(s: State, op: Op, k: Key)
    requires Clean(op)
    ensures !Resurrects(WritesOf(s, op), k)
  {
    var ws := WritesOf(s, op);
    match op
    case TxCommit(txid) => FirstWinsOnce(IntentWrites(s.intents, Sorted(TxKeys(s, txid))), k);
    case DeleteRange(_, _) => DeletesOnlyDelete(WritesOf(s, op), k);
    case SplitCleanup(_) => DeletesOnlyDelete(WritesOf(s, op), k);
    case Set(_, _, _) => assert |ws| == 1 && ws[..|ws| - 1] == [] && !DeletedIn(ws, k);
    case Delete(_) => DeletesOnlyDelete(ws, k);
    case _ =>
  }

  lemma CleanKeepsNoShadow(c: Config, s: State, n: nat, op: Op)
    requires Inv(s) && NoShadow(s) && s.rev < n && Clean(op)
    ensures NoShadow(Apply(c, s, n, op))
  {
    var t := Apply(c, s, n, op);
    forall k | k in t.latest ensures Version(k, t.latest[k].rev) !in t.hist { CleanKeepsKey(c, s, n, op, k); }
  }

  lemma CleanKeepsKey(c: Config, s: State, n: nat, op: Op, k: Key)
    requires Inv(s) && NoShadow(s) && s.rev < n && Clean(op) && k in Apply(c, s, n, op).latest
    ensures Version(k, Apply(c, s, n, op).latest[k].rev) !in Apply(c, s, n, op).hist
  {
    EntryLatest(c, s, n, op, k);
    EntryHist(c, s, n, op, Version(k, Apply(c, s, n, op).latest[k].rev));
    CleanWrites(s, op, k);
  }

  // --- every state of a clean log ------------------------------------------------

  lemma {:induction false} RunInv(c: Config, log: Log)
    requires Indexed(log) && CleanLog(log)
    ensures var s := Run(c, log); Inv(s) && NoShadow(s) && s.rev <= LastIndex(log)
    decreases |log|
  {
    if log != [] {
      var prev, e := log[..|log| - 1], log[|log| - 1];
      RunInv(c, prev);
      EntryKeepsInv(c, Run(c, prev), e.index, e.op);
      CleanKeepsNoShadow(c, Run(c, prev), e.index, e.op);
      ApplyShape(c, Run(c, prev), e.index, e.op);
    }
  }

  lemma {:induction false} PrefixOk(log: Log, i: nat)
    requires Indexed(log) && CleanLog(log) && i <= |log|
    ensures Indexed(log[..i]) && CleanLog(log[..i])
    decreases |log|
  {
    if i == |log| {
      assert log[..i] == log;
    } else {
      PrefixOk(log[..|log| - 1], i);
      assert log[..|log| - 1][..i] == log[..i];
    }
  }

  /** A read at or above the current revision is a read of the latest record. */
  lemma ReadNow(s: State, k: Key, r: nat)
    requires Inv(s) && s.rev <= r
    ensures ReadAt(s, k, r) == Lookup(s.latest, k)
  {
    if k !in s.latest {
      var found := NewestAt(s.hist, k, r);
      if found.Some? { assert Newest(s, Version(k, found.value)); }
    }
  }

  /** Some readable read is answered from v. */
  ghost predicate Answered(s: State, cutoff: nat, v: Version) {
    exists r: nat {:trigger NewestAt(s.hist, v.key, r)} ::
      cutoff <= r && NewestAt(s.hist, v.key, r) == Some(v.rev) && (v.key in s.latest ==> r < s.latest[v.key].rev)
  }

  /** The tombstone of a key that is gone, with nothing after it. */
  ghost predicate Trailing(s: State, v: Version)
    requires v in s.hist
  {
    v.key !in s.latest && Newest(s, v) && s.hist[v].deleted
  }

  /**
   Garbage collection removes exactly what no readable read is answered from,
   and trailing tombstones at or below the horizon, whose absence answers the same.
   */
  lemma PrunesExactly(s: State, cutoff: nat, v: Version)
    requires Inv(s) && NoShadow(s) && v in s.hist
    ensures v !in Prune(s, cutoff) <==> Answered(s, cutoff, v) && !(Trailing(s, v) && v.rev <= cutoff)
  {
    if v !in Prune(s, cutoff) {
      var r := if v.rev < cutoff then cutoff else v.rev;
      assert !Prunable(s, cutoff, v);
      var found := NewestAt(s.hist, v.key, r);
      assert Version(v.key, found.value) in s.hist;
      assert v == Version(v.key, v.rev) && found == Some(v.rev);
      if v.key in s.latest && !Newest(s, v) {
        var w :| w in s.hist && w.key == v.key && v.rev < w.rev;
        assert cutoff < w.rev <= s.latest[v.key].rev;
      }
    } else {
      assert Prunable(s, cutoff, v);
      if w :| w in s.hist && w.key == v.key && v.rev < w.rev <= cutoff { assert w == Version(v.key, w.rev); }
    }
  }

  /**
   Time travel: whatever was archived, deleted, re-created and pruned since,
   a read at any revision r at or above the horizon returns exactly the record
   the key held when the log had been applied up to r.
   */
  lemma {:induction false} TimeTravel(c: Config, log: Log, k: Key, r: nat)
    requires Indexed(log) && CleanLog(log)
    requires Run(c, log).cutoff <= r
    ensures ReadAt(Run(c, log), k, r) == Lookup(Run(c, Upto(log, r)).latest, k)
    decreases |log|
  {
    RunInv(c, log);
    if LastIndex(log) <= r {
      ReadNow(Run(c, log), k, r);
    } else {
      var prev, e := log[..|log| - 1], log[|log| - 1];
      RunInv(c, prev);
      ApplyShape(c, Run(c, prev), e.index, e.op);
      EntryKeepsReads(c, Run(c, prev), e.index, e.op, k, r);
      TimeTravel(c, prev, k, r);
    }
  }

  // --- where it fails --------------------------------------------------------------

  const A: Key := [97]

  /**
   A log outside CleanLog. Entry 2 deletes and re-puts one key, which leaves a
   tombstone at the live revision; entry 4608 overwrites the key at a garbage
   collection index.
   */
  const RESURRECTING: Log := [
    Logged(1, Set(A, [1], false)),
    Logged(2, TxApply(map[], [TxWrite(A, [], true, false), TxWrite(A, [2], false, false)])),
    Logged(4608, Set(A, [3], false))]

  /** The state after its first two entries: a tombstone at the live revision. */
  const SHADOWED := State(
    map[A := Record(2, [2], false)],
    map[Version(A, 1) := Archived(Record(1, [1], false)), Version(A, 2) := Tombstone(2)],
    map[], 2, 0, None)

  lemma ResurrectionShadows(c: Config)
    requires c == DEFAULT_CONFIG
    ensures Run(c, RESURRECTING[..2]) == SHADOWED
  {
    var log := RESURRECTING;
    var one, two := log[..1], log[..2];
    assert two[..|two| - 1] == one && one[..|one| - 1] == [];
    var s1 := State(map[A := Record(1, [1], false)], map[], map[], 1, 0, None);
    SingleWrite(EMPTY, 1, TxWrite(A, [1], false, false));
    assert Run(c, one) == Apply(c, EMPTY, 1, log[0].op) == s1;
    var ws := log[1].op.writes;
    assert BadWrite(c, s1, None, ws) == None by {
      assert ws[1..] == [ws[1]] && ws[1..][1..] == [];
      assert BadWrite(c, s1, None, ws[1..][1..]) == None;
      assert BadWrite(c, s1, None, ws[1..]) == None;
    }
    SingleWrite(s1, 2, ws[0]);
    assert ws[..|ws| - 1] == [ws[0]];
    assert Stage(s1, 2, ws) == SHADOWED.(rev := 1) by {
      assert Stage(s1, 2, [ws[0]]).hist == SHADOWED.hist;
    }
  }

  /** The read at the horizon, revision 512, finds nothing; the key held [2]. */
  lemma ResurrectionLosesAVersion(c: Config)
    requires c == DEFAULT_CONFIG
    ensures Indexed(RESURRECTING) && Run(c, RESURRECTING).cutoff == 512
    ensures ReadAt(Run(c, RESURRECTING), A, 512) == None
    ensures Lookup(Run(c, Upto(RESURRECTING, 512)).latest, A) == Some(Record(2, [2], false))
  {
    var log := RESURRECTING;
    var one, two := log[..1], log[..2];
    assert log[..|log| - 1] == two && two[..|two| - 1] == one && one[..|one| - 1] == [];
    assert Indexed(one) && Indexed(two);
    ResurrectionShadows(c);
    var op := log[2].op;
    NineTurns();
    assert LastWrite(Performed(c, SHADOWED, op), A).Some?;
    assert Clobbered(c, SHADOWED, 4608, op, A);
    ArchivedRead(c, SHADOWED, 4608, op, A, 512);
    assert Upto(log, 512) == two;
  }

  lemma NineTurns()
    ensures Divides(512, 4608)
  {
    assert Divides(512, 512);
    assert Divides(512, 1536);
    assert Divides(512, 2560);
    assert Divides(512, 3584);
  }

  lemma SingleWrite(s: State, n: nat, w: TxWrite)
    ensures Stage(s, n, [w]) == StageOne(s, s, n, w)
  {
    assert [w][..|[w]| - 1] == [];
  }

  const IMPORTING: Log := [
    Logged(1, CopyIn(map[A := Record(9, [1], false)])),
    Logged(2, Set(A, [2], false))]

  /** A read pinned at the revision a split's new group reports, 9, changes. */
  lemma CopyInMovesPinnedReads()
    ensures var c, log := DEFAULT_CONFIG, IMPORTING;
            && Indexed(log)
            && Run(c, log[..1]).rev == 9
            && ReadAt(Run(c, log[..1]), A, 9) == Some(Record(9, [1], false))
            && ReadAt(Run(c, log), A, 9) == Some(Record(2, [2], false))
  {
    var c, log := DEFAULT_CONFIG, IMPORTING;
    var one := log[..1];
    assert one[..0] == [] && log[..1] == one;
    var pairs := map[A := Record(9, [1], false)];
    assert A in pairs;
    var s1 := State(pairs, map[], map[], 9, 0, None);
    assert Apply(c, EMPTY, 1, log[0].op) == s1 by {
      assert WritesOf(EMPTY, log[0].op) == [];
    }
    assert Run(c, one) == s1;
    assert WritesOf(s1, log[1].op)[..0] == [];
    assert Run(c, log) == Apply(c, s1, 2, log[1].op);
  }
}
