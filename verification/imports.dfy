/**
 Whole logs, imports included. `copy_in` may raise the revision above the raft
 index, and the next writes move it back. This module says exactly for which
 logs versioned reads are nevertheless exact, reported reads stay as they
 were, and the group's own revision shows its latest records.
 */
module Imports {
  import opened Bytes
  import opened Layout
  import opened Kv
  import opened Mvcc
  import opened History
  import opened Reads

  lemma {:induction false} RunStamped(c: Config, log: Log)
    ensures Stamped(Run(c, log))
    decreases |log|
  {
    if log != [] {
      var prev, e := log[..|log| - 1], log[|log| - 1];
      RunStamped(c, prev);
      StampedStep(c, Run(c, prev), e.index, e.op);
    }
  }

  lemma RunStep(c: Config, log: Log, j: nat)
    requires j < |log|
    ensures Run(c, log[..j + 1]) == Apply(c, Run(c, log[..j]), log[j].index, log[j].op)
    ensures Stamped(Run(c, log[..j])) && Run(c, log[..j + 1]).cutoff == CutoffAfter(c, Run(c, log[..j]), log[j].index)
    ensures Run(c, log[..j]).cutoff <= Run(c, log[..j + 1]).cutoff
  {
    assert log[..j + 1][..j] == log[..j];
    RunStamped(c, log[..j]);
    ReachedIs(c, Run(c, log[..j]), log[j].index, log[j].op);
  }

  // --- time travel ----------------------------------------------------------------------------

  /** Reads of k from a revision on return what k held once the log had been applied up to there. */
  ghost predicate Travels(c: Config, log: Log, k: Key, floor: nat) {
    forall r :: floor <= r && Run(c, log).cutoff <= r ==> ReadAt(Run(c, log), k, r) == Lookup(Run(c, Upto(log, r)).latest, k)
  }

  /**
   What can be checked of each entry before it applies: it keeps the readable
   reads below its index, and reads from its index on see what it leaves.
   */
  ghost predicate EntryTravels(c: Config, s: State, n: nat, op: Op, k: Key, floor: nat) {
    var from := Later(floor, CutoffAfter(c, s, n));
    KeepsReads(c, s, n, op, k, from, n) && Settles(c, s, n, op, k, Later(from, n))
  }

  /** The test of one entry, in the state it finds. */
  ghost predicate TravelsAt(c: Config, log: Log, k: Key, floor: nat, j: nat)
    requires j < |log|
  {
    EntryTravels(c, Run(c, log[..j]), log[j].index, log[j].op, k, floor)
  }

  lemma TravelsOn(c: Config, log: Log, k: Key, floor: nat)
    requires log != [] && Travels(c, log[..|log| - 1], k, floor)
    ensures var s, e := Run(c, log[..|log| - 1]), log[|log| - 1];
            Travels(c, log, k, floor) <==> EntryTravels(c, s, e.index, e.op, k, floor)
  {
    var prev, e := log[..|log| - 1], log[|log| - 1];
    var s, t := Run(c, prev), Run(c, log);
    var from := Later(floor, CutoffAfter(c, s, e.index));
    RunStep(c, log, |log| - 1);
    assert log[..|log| - 1 + 1] == log;
    UnchangedIff(c, s, e.index, e.op, k, from, e.index);
    CurrentIff(c, s, e.index, e.op, k, Later(from, e.index));
    forall r | from <= r < e.index
      ensures ReadAt(t, k, r) == Lookup(Run(c, Upto(log, r)).latest, k) <==> ReadAt(t, k, r) == ReadAt(s, k, r)
    {
      assert Upto(log, r) == Upto(prev, r) && s.cutoff <= r;
    }
    forall r | Later(from, e.index) <= r ensures Upto(log, r) == log { }
  }

  lemma TravelsStep(c: Config, log: Log, k: Key, floor: nat, j: nat)
    requires j < |log| && Travels(c, log[..j], k, floor)
    ensures Travels(c, log[..j + 1], k, floor) <==> TravelsAt(c, log, k, floor, j)
  {
    var p := log[..j + 1];
    assert p[..|p| - 1] == log[..j] && p[|p| - 1] == log[j];
    TravelsOn(c, p, k, floor);
  }

  lemma {:induction false} TravelsAll(c: Config, log: Log, k: Key, floor: nat, j: nat)
    requires j <= |log| && forall l :: 0 <= l < |log| ==> TravelsAt(c, log, k, floor, l)
    ensures Travels(c, log[..j], k, floor)
    decreases j
  {
    if j > 0 {
      TravelsAll(c, log, k, floor, j - 1);
      TravelsStep(c, log, k, floor, j - 1);
    }
  }

  /**
   Time travel, exactly, for any log: at every moment every readable read of k
   from `floor` on is exact if and only if every entry passes the test in the
   state it finds.
   */
  lemma TimeTravelIff(c: Config, log: Log, k: Key, floor: nat)
    ensures (forall j :: 0 <= j <= |log| ==> Travels(c, log[..j], k, floor)) <==>
            forall j :: 0 <= j < |log| ==> TravelsAt(c, log, k, floor, j)
  {
    if forall j :: 0 <= j < |log| ==> TravelsAt(c, log, k, floor, j) {
      forall j | 0 <= j <= |log| ensures Travels(c, log[..j], k, floor) { TravelsAll(c, log, k, floor, j); }
    } else if forall j :: 0 <= j <= |log| ==> Travels(c, log[..j], k, floor) {
      forall j | 0 <= j < |log| ensures TravelsAt(c, log, k, floor, j) { TravelsStep(c, log, k, floor, j); }
    }
  }

  /** Logs without imports, and without write lists that delete and put a key, pass. */
  lemma CleanPasses(c: Config, log: Log, k: Key)
    requires Indexed(log) && CleanLog(log)
    ensures forall j :: 0 <= j < |log| ==> TravelsAt(c, log, k, 0, j)
  {
    forall j | 0 <= j <= |log| ensures Travels(c, log[..j], k, 0) {
      PrefixOk(log, j);
      forall r | Run(c, log[..j]).cutoff <= r ensures ReadAt(Run(c, log[..j]), k, r) == Lookup(Run(c, Upto(log[..j], r)).latest, k) {
        TimeTravel(c, log[..j], k, r);
      }
    }
    TimeTravelIff(c, log, k, 0);
  }

  // --- reported revisions -----------------------------------------------------------------------

  /** The largest revision the group has reported at any moment. */
  ghost function Top(c: Config, log: Log): nat
    decreases |log|
  {
    if log == [] then 0 else Later(Top(c, log[..|log| - 1]), Run(c, log).rev)
  }

  lemma {:induction false} TopGrows(c: Config, log: Log, i: nat)
    requires i <= |log|
    ensures Top(c, log[..i]) <= Top(c, log)
    decreases |log|
  {
    if i == |log| {
      assert log[..i] == log;
    } else {
      TopGrows(c, log[..|log| - 1], i);
      assert log[..|log| - 1][..i] == log[..i];
    }
  }

  ghost predicate SameRead(c: Config, log: Log, k: Key, i: nat, j: nat, r: nat)
    requires i <= j <= |log|
  {
    Run(c, log[..j]).cutoff <= r <= Top(c, log[..i]) ==> ReadAt(Run(c, log[..j]), k, r) == ReadAt(Run(c, log[..i]), k, r)
  }

  ghost predicate StepSame(c: Config, log: Log, k: Key, j: nat, r: nat)
    requires j < |log|
  {
    SameRead(c, log, k, j, j + 1, r)
  }

  /** Whatever was read of k at a revision reported by then is read ever after, while readable. */
  ghost predicate PinnedStable(c: Config, log: Log, k: Key) {
    forall i: nat, j: nat, r: nat {:trigger SameRead(c, log, k, i, j, r)} :: i <= j <= |log| ==> SameRead(c, log, k, i, j, r)
  }

  /** The test of one entry, in the state it finds. */
  ghost predicate KeepsReported(c: Config, log: Log, k: Key, j: nat)
    requires j < |log|
  {
    var s := Run(c, log[..j]);
    KeepsReads(c, s, log[j].index, log[j].op, k, CutoffAfter(c, s, log[j].index), Top(c, log[..j]) + 1)
  }

  lemma ReportedStep(c: Config, log: Log, k: Key, j: nat)
    requires j < |log|
    ensures KeepsReported(c, log, k, j) <==> forall r: nat :: StepSame(c, log, k, j, r)
  {
    var s, e := Run(c, log[..j]), log[j];
    var from, to := CutoffAfter(c, s, e.index), Top(c, log[..j]) + 1;
    RunStep(c, log, j);
    UnchangedIff(c, s, e.index, e.op, k, from, to);
    if forall r: nat :: StepSame(c, log, k, j, r) {
      forall r | from <= r < to ensures ReadAt(Apply(c, s, e.index, e.op), k, r) == ReadAt(s, k, r) { assert StepSame(c, log, k, j, r); }
    }
  }

  lemma SameJoins(c: Config, log: Log, k: Key, i: nat, j: nat, r: nat)
    requires i <= j < |log| && SameRead(c, log, k, i, j, r) && StepSame(c, log, k, j, r)
    ensures SameRead(c, log, k, i, j + 1, r)
  {
    RunStep(c, log, j);
    TopGrows(c, log[..j], i);
    assert log[..j][..i] == log[..i];
  }

  lemma {:induction false} StaysSame(c: Config, log: Log, k: Key, i: nat, j: nat, r: nat)
    requires i <= j <= |log|
    requires forall l: nat, q: nat :: l < |log| ==> StepSame(c, log, k, l, q)
    ensures SameRead(c, log, k, i, j, r)
    decreases j
  {
    if i < j {
      StaysSame(c, log, k, i, j - 1, r);
      assert StepSame(c, log, k, j - 1, r);
      SameJoins(c, log, k, i, j - 1, r);
    }
  }

  /**
   Pinned reads, exactly, for any log: reads of k at revisions the group had
   reported never change if and only if every entry passes the test.
   */
  lemma PinnedStableIff(c: Config, log: Log, k: Key)
    ensures PinnedStable(c, log, k) <==> forall j :: 0 <= j < |log| ==> KeepsReported(c, log, k, j)
  {
    if forall j :: 0 <= j < |log| ==> KeepsReported(c, log, k, j) {
      forall l: nat, q: nat | l < |log| ensures StepSame(c, log, k, l, q) { ReportedStep(c, log, k, l); }
      forall i: nat, j: nat, r: nat | i <= j <= |log| ensures SameRead(c, log, k, i, j, r) { StaysSame(c, log, k, i, j, r); }
    } else {
      var j :| 0 <= j < |log| && !KeepsReported(c, log, k, j);
      ReportedStep(c, log, k, j);
      var r: nat :| !StepSame(c, log, k, j, r);
      assert !SameRead(c, log, k, j, j + 1, r);
    }
  }

  // --- the group's own revision --------------------------------------------------------------------

  /** Reads at the revision the group reports, and later ones, see its latest record of k. */
  ghost predicate ShowsLatest(c: Config, log: Log, k: Key) {
    Current(Run(c, log), k, Later(Run(c, log).rev, Run(c, log).cutoff))
  }

  /** The test of one entry, in the state it finds. */
  ghost predicate SettlesAt(c: Config, log: Log, k: Key, j: nat)
    requires j < |log|
  {
    var s, e := Run(c, log[..j]), log[j];
    Settles(c, s, e.index, e.op, k, Later(Reached(c, s, e.index, e.op), CutoffAfter(c, s, e.index)))
  }

  lemma LatestStep(c: Config, log: Log, k: Key, j: nat)
    requires j < |log|
    ensures ShowsLatest(c, log[..j + 1], k) <==> SettlesAt(c, log, k, j)
  {
    var s, e := Run(c, log[..j]), log[j];
    RunStep(c, log, j);
    ReachedIs(c, s, e.index, e.op);
    CurrentIff(c, s, e.index, e.op, k, Later(Reached(c, s, e.index, e.op), CutoffAfter(c, s, e.index)));
  }

  /**
   The group's own revision, exactly, for any log: at every moment it shows the
   latest record of k, or that there is none, if and only if every entry
   passes the test.
   */
  lemma ShowsLatestIff(c: Config, log: Log, k: Key)
    ensures (forall j :: 0 <= j <= |log| ==> ShowsLatest(c, log[..j], k)) <==> forall j :: 0 <= j < |log| ==> SettlesAt(c, log, k, j)
  {
    forall j | 0 <= j < |log| ensures ShowsLatest(c, log[..j + 1], k) <==> SettlesAt(c, log, k, j) { LatestStep(c, log, k, j); }
    assert log[..0] == [] && ShowsLatest(c, [], k);
    if forall j :: 0 <= j < |log| ==> SettlesAt(c, log, k, j) {
      forall j | 0 <= j <= |log| ensures ShowsLatest(c, log[..j], k) {
        if j > 0 { assert SettlesAt(c, log, k, j - 1); }
      }
    } else {
      var j :| 0 <= j < |log| && !SettlesAt(c, log, k, j);
      assert !ShowsLatest(c, log[..j + 1], k);
    }
  }

  // --- groups that start by importing -------------------------------------------------------------

  /** Records a split copies: their revisions start at 1, their keys have no history here. */
  ghost predicate FreshImport(s: State, pairs: map<Key, Record>) {
    forall k :: k in pairs ==> 1 <= pairs[k].rev && forall v :: v in s.hist ==> v.key != k
  }

  lemma ImportKeepsInv(c: Config, s: State, n: nat, pairs: map<Key, Record>)
    requires Inv(s) && NoShadow(s) && FreshImport(s, pairs)
    ensures Inv(Apply(c, s, n, CopyIn(pairs))) && NoShadow(Apply(c, s, n, CopyIn(pairs)))
  {
    var t := Apply(c, s, n, CopyIn(pairs));
    ImportShape(c, s, n, pairs);
    forall k | k in t.latest ensures 1 <= t.latest[k].rev <= t.rev && Version(k, t.latest[k].rev) !in t.hist { ImportedRecord(s, pairs, k); }
    forall v | v in t.hist
      ensures t.hist[v].rev == v.rev <= t.rev
      ensures v.key in t.latest ==> v.rev <= t.latest[v.key].rev
      ensures v.key !in t.latest && Newest(t, v) ==> t.hist[v].deleted
    {
      if v.key !in t.latest && Newest(t, v) { ImportNewest(c, s, n, v); }
    }
  }

  lemma ImportedRecord(s: State, pairs: map<Key, Record>, k: Key)
    requires Inv(s) && NoShadow(s) && FreshImport(s, pairs) && k in s.latest + pairs
    ensures 1 <= (s.latest + pairs)[k].rev <= MaxRev(pairs, s.rev) && Version(k, (s.latest + pairs)[k].rev) !in s.hist
  {
  }

  /** Pruning never leaves an older dead version as the newest one. */
  lemma ImportNewest(c: Config, s: State, n: nat, v: Version)
    requires Inv(s) && v in s.hist && v !in Pruned(c, s, n) && v.key !in s.latest
    requires forall w :: w in s.hist && w !in Pruned(c, s, n) && w.key == v.key ==> w.rev <= v.rev
    ensures s.hist[v].deleted
  {
    var top := NewestAt(s.hist, v.key, s.rev).value;
    assert Newest(s, Version(v.key, top));
    if top != v.rev {
      var cutoff := NewCutoff(c, s.cutoff, n).value;
      assert Version(v.key, top) in Pruned(c, s, n);
      assert Prunable(s, cutoff, Version(v.key, top));
      assert Prunable(s, cutoff, v);
    }
  }

  /** The first entries of a split's new group: imports into an empty group. */
  ghost predicate ImportsOnly(log: Log) {
    forall i :: 0 <= i < |log| ==> log[i].op.CopyIn? && forall k :: k in log[i].op.pairs ==> 1 <= log[i].op.pairs[k].rev
  }

  lemma {:induction false} ImportedState(c: Config, log: Log)
    requires ImportsOnly(log)
    ensures var s := Run(c, log); Inv(s) && NoShadow(s) && s.hist == map[]
    decreases |log|
  {
    if log != [] {
      var prev, e := log[..|log| - 1], log[|log| - 1];
      ImportedState(c, prev);
      ImportKeepsInv(c, Run(c, prev), e.index, e.op.pairs);
      ImportShape(c, Run(c, prev), e.index, e.op.pairs);
    }
  }

  /** The entry is accepted and sets the revision to its index. */
  predicate Moves(c: Config, s: State, op: Op) {
    Rejection(c, s, op).None? && Bumps(op)
  }

  /** Every later entry is clean, and ahead of the revision it finds if it moves it. */
  ghost predicate AheadAfter(c: Config, log: Log, i: nat)
    requires i <= |log|
  {
    forall j :: i <= j < |log| ==> Clean(log[j].op) && (Moves(c, Run(c, log[..j]), log[j].op) ==> Run(c, log[..j]).rev < log[j].index)
  }

  lemma AheadPrefix(c: Config, log: Log, i: nat)
    requires i < |log| && AheadAfter(c, log, i)
    ensures AheadAfter(c, log[..|log| - 1], i)
  {
    var prev := log[..|log| - 1];
    forall j | i <= j < |prev|
      ensures Clean(prev[j].op) && (Moves(c, Run(c, prev[..j]), prev[j].op) ==> Run(c, prev[..j]).rev < prev[j].index)
    {
      assert prev[..j] == log[..j] && prev[j] == log[j];
    }
  }

  /** An entry that does not move the revision writes nothing: only its garbage collection acts. */
  lemma QuietShape(c: Config, s: State, n: nat, op: Op)
    requires Clean(op) && !Moves(c, s, op)
    ensures var t := Apply(c, s, n, op); t.latest == s.latest && t.hist == s.hist - Pruned(c, s, n) && t.rev == s.rev
    ensures forall k :: !Touches(c, s, op, k)
  {
    assert Performed(c, s, op) == [];
    ApplyShape(c, s, n, op);
    ReachedIs(c, s, n, op);
  }

  lemma SameRows(s: State, t: State)
    requires Inv(s) && NoShadow(s) && t.latest == s.latest && t.hist == s.hist && t.rev == s.rev
    ensures Inv(t) && NoShadow(t)
  {
    forall v | v in t.hist && v.key !in t.latest && Newest(t, v) ensures t.hist[v].deleted { assert Newest(s, v); }
  }

  lemma QuietKeepsInv(c: Config, s: State, n: nat, op: Op)
    requires Inv(s) && NoShadow(s) && Clean(op) && !Moves(c, s, op)
    ensures Inv(Apply(c, s, n, op)) && NoShadow(Apply(c, s, n, op))
  {
    QuietShape(c, s, n, op);
    ImportKeepsInv(c, s, n, map[]);
    ImportShape(c, s, n, map[]);
    assert s.latest + map[] == s.latest;
    SameRows(Apply(c, s, n, CopyIn(map[])), Apply(c, s, n, op));
  }

  lemma {:induction false} ImportedRunInv(c: Config, log: Log, i: nat)
    requires i <= |log| && ImportsOnly(log[..i]) && AheadAfter(c, log, i)
    ensures Inv(Run(c, log)) && NoShadow(Run(c, log))
    ensures Run(c, log).rev <= Later(Run(c, log[..i]).rev, LastIndex(log)) || !Indexed(log)
    decreases |log|
  {
    if i == |log| {
      assert log[..i] == log;
      ImportedState(c, log);
    } else {
      var prev, e := log[..|log| - 1], log[|log| - 1];
      assert prev[..i] == log[..i];
      AheadPrefix(c, log, i);
      ImportedRunInv(c, prev, i);
      if Moves(c, Run(c, prev), e.op) {
        EntryKeepsInv(c, Run(c, prev), e.index, e.op);
        CleanKeepsNoShadow(c, Run(c, prev), e.index, e.op);
        ApplyShape(c, Run(c, prev), e.index, e.op);
      } else {
        QuietKeepsInv(c, Run(c, prev), e.index, e.op);
        QuietShape(c, Run(c, prev), e.index, e.op);
      }
    }
  }

  /** One clean entry after the import keeps every readable read below its index. */
  lemma AheadKeeps(c: Config, s: State, n: nat, op: Op, k: Key, r: nat)
    requires Inv(s) && NoShadow(s) && Clean(op) && (Moves(c, s, op) ==> s.rev < n) && CutoffAfter(c, s, n) <= r < n
    ensures ReadAt(Apply(c, s, n, op), k, r) == ReadAt(s, k, r)
  {
    if Moves(c, s, op) {
      EntryKeepsReads(c, s, n, op, k, r);
    } else {
      QuietShape(c, s, n, op);
      UntouchedKeeps(c, s, n, op, k, r);
    }
  }

  lemma LastAheadKeeps(c: Config, log: Log, i: nat, k: Key, r: nat)
    requires i < |log| && ImportsOnly(log[..i]) && AheadAfter(c, log, i) && Run(c, log).cutoff <= r < LastIndex(log)
    ensures ReadAt(Run(c, log), k, r) == ReadAt(Run(c, log[..|log| - 1]), k, r) && Run(c, log[..|log| - 1]).cutoff <= r
  {
    var prev, e := log[..|log| - 1], log[|log| - 1];
    assert prev[..i] == log[..i];
    AheadPrefix(c, log, i);
    ImportedRunInv(c, prev, i);
    ReachedIs(c, Run(c, prev), e.index, e.op);
    AheadKeeps(c, Run(c, prev), e.index, e.op, k, r);
  }

  /**
   A split's new group: as long as every entry that moves the revision is
   ahead of it, reads from the import on are exact for every key.
   */
  lemma {:induction false} ImportedTimeTravel(c: Config, log: Log, i: nat, k: Key, r: nat)
    requires Indexed(log) && i <= |log| && ImportsOnly(log[..i]) && AheadAfter(c, log, i)
    requires Run(c, log).cutoff <= r && Run(c, log[..i]).rev <= r && LastIndex(log[..i]) <= r
    ensures ReadAt(Run(c, log), k, r) == Lookup(Run(c, Upto(log, r)).latest, k)
    decreases |log|
  {
    ImportedRunInv(c, log, i);
    if i == |log| || LastIndex(log) <= r {
      assert i == |log| ==> log[..i] == log;
      ReadNow(Run(c, log), k, r);
    } else {
      assert log[..|log| - 1][..i] == log[..i];
      AheadPrefix(c, log, i);
      LastAheadKeeps(c, log, i, k, r);
      ImportedTimeTravel(c, log[..|log| - 1], i, k, r);
    }
  }

  // --- where it fails --------------------------------------------------------------------------------

  const B: Key := [98]
  const IMPORTED := Record(9, [1], false)

  /** The commands of the logs below, before the first garbage collection. */
  lemma EarlyEntry(c: Config, s: State, n: nat)
    requires c == DEFAULT_CONFIG && n <= 4096 && s.freeze.None?
    ensures forall pairs :: Apply(c, s, n, CopyIn(pairs)) == s.(latest := s.latest + pairs, rev := MaxRev(pairs, s.rev))
    ensures forall k, v :: Apply(c, s, n, Set(k, v, false)) == StageOne(s, s, n, TxWrite(k, v, false, false)).(rev := n)
    ensures forall k :: Apply(c, s, n, Delete(k)) == StageOne(s, s, n, DeleteOf(k)).(rev := n)
  {
    forall w ensures Stage(s, n, [w]) == StageOne(s, s, n, w) { SingleWrite(s, n, w); }
  }

  lemma Follow(c: Config, log: Log, e: Logged)
    ensures Run(c, log + [e]) == Apply(c, Run(c, log), e.index, e.op)
  {
    assert (log + [e])[..|log + [e]| - 1] == log;
  }

  lemma ThreeIndexed(log: Log)
    requires |log| == 3 && 0 < log[0].index < log[1].index < log[2].index
    ensures Indexed(log)
  {
    var two, one := log[..2], log[..1];
    assert log[..|log| - 1] == two && two[..|two| - 1] == one && one[..|one| - 1] == [];
    assert Indexed(one) && Indexed(two);
  }

  /** A group that imported A, and maybe more, at one revision. */
  lemma Imported(c: Config, pairs: map<Key, Record>)
    requires c == DEFAULT_CONFIG && A in pairs && forall k :: k in pairs ==> pairs[k].rev == pairs[A].rev
    ensures Run(c, [Logged(1, CopyIn(pairs))]) == State(pairs, map[], map[], pairs[A].rev, 0, None)
  {
    Follow(c, [], Logged(1, CopyIn(pairs)));
    EarlyEntry(c, EMPTY, 1);
    assert [] + [Logged(1, CopyIn(pairs))] == [Logged(1, CopyIn(pairs))];
  }

  /**
   A deleted key that comes back: imported at revision 9 and deleted at index
   2, it is gone from the latest records and yet read at every revision from 9
   on. Reads pinned up to the reported revision 9 are unchanged.
   */
  lemma DeletedImportIsRevived(c: Config, log: Log)
    requires c == DEFAULT_CONFIG && log == [Logged(1, CopyIn(map[A := IMPORTED])), Logged(2, Delete(A))]
    ensures Indexed(log) && A !in Run(c, log).latest
    ensures forall r :: 9 <= r ==> ReadAt(Run(c, log), A, r) == Some(IMPORTED)
    ensures Run(c, log[..1]).rev == 9 && forall r :: r <= 9 ==> ReadAt(Run(c, log), A, r) == ReadAt(Run(c, log[..1]), A, r)
    ensures !ShowsLatest(c, log, A)
  {
    var one := log[..1];
    Imported(c, map[A := IMPORTED]);
    assert one == [log[0]] && log == one + [log[1]];
    Follow(c, one, log[1]);
    EarlyEntry(c, Run(c, one), 2);
    assert ReadAt(Run(c, log), A, 9) == Some(IMPORTED);
  }

  /**
   Overwriting it first does not help: the delete at index 3 finds a record of
   revision 2, yet the archived import outlives it and is read from 9 on.
   */
  lemma OverwrittenImportIsRevived(c: Config, log: Log)
    requires c == DEFAULT_CONFIG && log == [Logged(1, CopyIn(map[A := IMPORTED])), Logged(2, Set(A, [2], false)), Logged(3, Delete(A))]
    ensures Indexed(log) && RevOf(Run(c, log[..2]), A) == 2 && A !in Run(c, log).latest
    ensures forall r :: 9 <= r ==> ReadAt(Run(c, log), A, r) == Some(IMPORTED)
    ensures !ShowsLatest(c, log, A)
  {
    ThreeIndexed(log);
    Overwritten(c, log[..2], IMPORTED);
    var s := Run(c, log[..2]);
    assert log == log[..2] + [log[2]];
    Follow(c, log[..2], log[2]);
    RevivesOverwritten(c, s);
    assert ReadAt(Run(c, log), A, 9) == Some(IMPORTED);
  }

  /** The state after importing A and overwriting it at index 2. */
  function OverwrittenState(imported: Record): State {
    State(map[A := Record(2, [2], false)], map[Version(A, imported.rev) := Archived(imported)], map[], 2, 0, None)
  }

  lemma Overwritten(c: Config, log: Log, imported: Record)
    requires c == DEFAULT_CONFIG && 2 < imported.rev && log == [Logged(1, CopyIn(map[A := imported])), Logged(2, Set(A, [2], false))]
    ensures Run(c, log) == OverwrittenState(imported)
  {
    var one := log[..1];
    Imported(c, map[A := imported]);
    assert one == [log[0]] && log == one + [log[1]];
    Follow(c, one, log[1]);
    EarlyEntry(c, Run(c, one), 2);
  }

  lemma RevivesOverwritten(c: Config, s: State)
    requires c == DEFAULT_CONFIG && s == OverwrittenState(IMPORTED)
    ensures var t := Apply(c, s, 3, Delete(A)); A !in t.latest && t.rev == 3 && t.cutoff == 0 && forall r :: 9 <= r ==> ReadAt(t, A, r) == Some(IMPORTED)
  {
    EarlyEntry(c, s, 3);
    var t := Apply(c, s, 3, Delete(A));
    assert t.hist.Keys == {Version(A, 2), Version(A, 3), Version(A, 9)};
  }

  /**
   A tombstone lost to garbage collection: A was imported at the very index of
   a later collection pass and overwritten before. The delete at that index
   puts its tombstone where the archived import was, the pass prunes that
   history key by what it held before, and the deleted record is read for ever.
   */
  lemma CollectedTombstone(c: Config, log: Log)
    requires c == DEFAULT_CONFIG
    requires log == [Logged(1, CopyIn(map[A := Record(4608, [1], false)])), Logged(2, Set(A, [2], false)), Logged(4608, Delete(A))]
    ensures Indexed(log) && A !in Run(c, log).latest && Run(c, log).cutoff == 512
    ensures forall r :: 512 <= r ==> ReadAt(Run(c, log), A, r) == Some(Record(2, [2], false))
  {
    ThreeIndexed(log);
    Overwritten(c, log[..2], Record(4608, [1], false));
    assert log == log[..2] + [log[2]];
    Follow(c, log[..2], log[2]);
    CollectsTombstone(c, Run(c, log[..2]));
  }

  lemma CollectsTombstone(c: Config, s: State)
    requires c == DEFAULT_CONFIG && s == OverwrittenState(Record(4608, [1], false))
    ensures var t := Apply(c, s, 4608, Delete(A)); A !in t.latest && t.cutoff == 512 && forall r :: 512 <= r ==> ReadAt(t, A, r) == Some(Record(2, [2], false))
  {
    var op := Delete(A);
    var t := Apply(c, s, 4608, op);
    NineTurns();
    SingleWrite(s, 4608, DeleteOf(A));
    assert Prunable(s, 512, Version(A, 4608));
    assert Pruned(c, s, 4608) == {Version(A, 4608)};
    assert t.hist.Keys == {Version(A, 2)} && t.hist[Version(A, 2)] == Archived(Record(2, [2], false));
  }

  /**
   A pinned read that changes although the write is ahead of the revision it
   finds: another write had moved the revision back before.
   */
  lemma AheadMovesPinnedRead(c: Config, log: Log)
    requires c == DEFAULT_CONFIG
    requires log == [Logged(1, CopyIn(map[A := IMPORTED, B := IMPORTED])), Logged(2, Set(A, [5], false)), Logged(3, Set(B, [6], false))]
    ensures Indexed(log) && Top(c, log[..1]) == 9 && Run(c, log[..2]).rev < 3
    ensures ReadAt(Run(c, log[..2]), B, 9) == Some(IMPORTED) && ReadAt(Run(c, log), B, 9) == Some(Record(3, [6], false))
    ensures !PinnedStable(c, log, B)
  {
    var one, two := log[..1], log[..2];
    ThreeIndexed(log);
    Imported(c, map[A := IMPORTED, B := IMPORTED]);
    assert one == [log[0]] && two == one + [log[1]] && log == two + [log[2]] && log[..3] == log;
    Follow(c, one, log[1]);
    Follow(c, two, log[2]);
    BothOverwritten(c, Run(c, one));
    TopGrows(c, two, 1);
    assert two[..1] == one;
    assert !SameRead(c, log, B, 2, 3, 9);
  }

  lemma BothOverwritten(c: Config, s: State)
    requires c == DEFAULT_CONFIG && s == State(map[A := IMPORTED, B := IMPORTED], map[], map[], 9, 0, None)
    ensures var t := Apply(c, s, 2, Set(A, [5], false));
            && t.rev == 2 && t.cutoff == 0 && ReadAt(t, B, 9) == Some(IMPORTED)
            && Apply(c, t, 3, Set(B, [6], false)).cutoff == 0 && ReadAt(Apply(c, t, 3, Set(B, [6], false)), B, 9) == Some(Record(3, [6], false))
  {
    EarlyEntry(c, s, 2);
    EarlyEntry(c, Apply(c, s, 2, Set(A, [5], false)), 3);
  }

  /**
   A live key that its own group does not show: a write of B moves the revision
   back to 2, and a listing at the group's own revision has no A.
   */
  lemma LiveImportIsHidden(c: Config, log: Log)
    requires c == DEFAULT_CONFIG && log == [Logged(1, CopyIn(map[A := IMPORTED])), Logged(2, Set(B, [5], false))]
    ensures Indexed(log) && Run(c, log).rev == 2 && Lookup(Run(c, log).latest, A) == Some(IMPORTED)
    ensures ReadAt(Run(c, log), A, 2) == None
    ensures !ShowsLatest(c, log, A)
  {
    var one := log[..1];
    Imported(c, map[A := IMPORTED]);
    assert one == [log[0]] && log == one + [log[1]];
    Follow(c, one, log[1]);
    EarlyEntry(c, Run(c, one), 2);
  }
}
