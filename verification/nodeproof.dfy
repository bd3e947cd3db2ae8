/**
 Crash safety of a replica: on every disk a crash could leave, the marker tells
 the truth about staging, and unless an install was cut short the live rows
 are exactly the state at the persisted applied index.
 */
module NodeProof {
  import opened Bytes
  import opened Layout
  import opened Node

  // --- the invariant -----------------------------------------------------------------------

  /** No entry in (i, j] changes the state machine. */
  ghost predicate Quiet(g: Group, i: nat, j: nat) {
    j <= |g.log| && forall k :: i <= k < j ==> !g.log[k].Normal?
  }

  lemma {:induction false} QuietState(g: Group, i: nat, j: nat)
    requires i <= j && Quiet(g, i, j)
    ensures StateAt(g, i) == StateAt(g, j)
    decreases j
  {
    if i < j { QuietState(g, i, j - 1); }
  }

  ghost predicate DiskOk(g: Group, d: Disk) {
    && Matches(g, d) && d.applied <= d.commit && Quiet(g, d.applied, d.base)
    && (d.marker.Some? ==> Staged(g, d.marker.value, d.staging))
    && (if Interrupted(d) then d.commit < d.marker.value.index else d.rows == StateAt(g, d.applied))
  }

  ghost predicate RecvOk(g: Group, d: Disk, recv: Receiver) {
    recv.Staging? ==>
      && d.marker.None? && recv.index <= |g.log|
      && (forall c :: c in recv.todo ==> c !in d.staging)
      && IsStream(recv.sections, StateAt(g, recv.index), d.staging + recv.todo)
  }

  ghost predicate InstOk(g: Group, d: Disk, applied: nat, inst: Installer) {
    match inst
    case Ready => !Interrupted(d) && d.applied <= applied <= d.commit <= |g.log| && Quiet(g, d.applied, applied)
    case Installing(wiped, copied) =>
      && Interrupted(d) && Named(d.marker.value.sections, d.staging)
      && (wiped ==> copied <= d.staging.Keys && d.rows == Promote(d.marker.value.sections, d.staging, copied))
  }

  ghost predicate MemOk(g: Group, d: Disk, mem: Memory) {
    mem.Up? ==> RecvOk(g, d, mem.recv) && InstOk(g, d, mem.applied, mem.inst)
  }

  ghost predicate ReplicaOk(g: Group, r: Replica) {
    && r.synced < |r.disks|
    && (forall i {:trigger r.disks[i]} :: r.synced <= i < |r.disks| ==> DiskOk(g, r.disks[i]))
    && MemOk(g, Current(r), r.mem)
  }

  lemma CommitOk(g: Group, r: Replica, d: Disk, sync: bool, mem: Memory)
    requires ReplicaOk(g, r) && DiskOk(g, d) && MemOk(g, d, mem)
    ensures ReplicaOk(g, Commit(r, d, sync, mem))
  {
    var r' := Commit(r, d, sync, mem);
    forall i | r'.synced <= i < |r'.disks| ensures DiskOk(g, r'.disks[i]) {
      if i < |r.disks| { assert r'.disks[i] == r.disks[i]; }
    }
  }

  // --- the log --------------------------------------------------------------------------------

  lemma AppendOk(g: Group, r: Replica, step: Step)
    requires ReplicaOk(g, r) && step.Append? && Enabled(g, r, step)
    ensures ReplicaOk(g, Next(g, r, step))
  {
    CommitOk(g, r, AppendTo(Current(r), step.keep, step.entries, step.commit), step.sync, r.mem);
  }

  /** The rows on disk are the state before the next entry. */
  lemma RowsBeforeNext(g: Group, r: Replica)
    requires ReplicaOk(g, r) && Running(r)
    ensures NextIndex(r) - 1 <= |g.log| && Current(r).rows == StateAt(g, NextIndex(r) - 1)
  {
    var d, n := Current(r), NextIndex(r);
    if r.mem.applied < d.base {
      assert Quiet(g, d.applied, n - 1);
    }
    QuietState(g, d.applied, n - 1);
  }

  lemma ApplyOk(g: Group, r: Replica)
    requires ReplicaOk(g, r) && Enabled(g, r, Apply)
    ensures ReplicaOk(g, Next(g, r, Apply))
  {
    match g.log[NextIndex(r) - 1]
    case Normal(_) => ApplyNormalOk(g, r);
    case Empty => ApplyQuietOk(g, r);
    case ConfChange =>
      var d, n := Current(r), NextIndex(r);
      var mem := r.mem.(applied := n);
      ApplyQuietOk(g, r);
      CommitOk(g, r, d, true, mem);
      CommitOk(g, Commit(r, d, true, mem), d.(applied := n), false, mem);
  }

  lemma ApplyNormalOk(g: Group, r: Replica)
    requires ReplicaOk(g, r) && Enabled(g, r, Apply) && g.log[NextIndex(r) - 1].Normal?
    ensures ReplicaOk(g, Next(g, r, Apply))
  {
    var d, n := Current(r), NextIndex(r);
    RowsBeforeNext(g, r);
    var d' := d.(rows := g.apply(d.rows, n, g.log[n - 1].data), applied := n);
    assert d'.rows == StateAt(g, n);
    CommitOk(g, r, d', false, r.mem.(applied := n));
  }

  /** An entry that writes nothing moves only the applied index. */
  lemma ApplyQuietOk(g: Group, r: Replica)
    requires ReplicaOk(g, r) && Enabled(g, r, Apply) && !g.log[NextIndex(r) - 1].Normal?
    ensures var mem, d := r.mem.(applied := NextIndex(r)), Current(r);
            ReplicaOk(g, r.(mem := mem)) && DiskOk(g, d.(applied := NextIndex(r))) && MemOk(g, d, mem) && MemOk(g, d.(applied := NextIndex(r)), mem)
  {
    var d, n := Current(r), NextIndex(r);
    RowsBeforeNext(g, r);
    assert Quiet(g, d.applied, n);
  }

  lemma CompactOk(g: Group, r: Replica)
    requires ReplicaOk(g, r) && Enabled(g, r, Compact)
    ensures ReplicaOk(g, Next(g, r, Compact))
  {
    var d := Current(r);
    if r.mem.applied >= d.base {
      CommitOk(g, r, d.(base := r.mem.applied, log := d.log[r.mem.applied - d.base..]), true, r.mem);
    }
  }

  // --- receiving --------------------------------------------------------------------------------

  lemma BeginReceiveOk(g: Group, r: Replica, step: Step)
    requires ReplicaOk(g, r) && step.BeginReceive? && Enabled(g, r, step)
    ensures ReplicaOk(g, Next(g, r, step))
  {
    var d := Current(r).(staging := map[], marker := None);
    assert d.staging + step.stream == step.stream;
    CommitOk(g, r, d, false, r.mem.(recv := Staging(step.index, step.sections, step.stream)));
  }

  lemma StagePageOk(g: Group, r: Replica, step: Step)
    requires ReplicaOk(g, r) && step.StagePage? && Enabled(g, r, step)
    ensures ReplicaOk(g, Next(g, r, step))
  {
    var d, recv := Current(r), r.mem.recv;
    var todo := recv.todo - step.page.Keys;
    assert (d.staging + step.page) + todo == d.staging + recv.todo;
    CommitOk(g, r, d.(staging := d.staging + step.page), false, r.mem.(recv := recv.(todo := todo)));
  }

  lemma FinishReceiveOk(g: Group, r: Replica)
    requires ReplicaOk(g, r) && Enabled(g, r, FinishReceive)
    ensures ReplicaOk(g, Next(g, r, FinishReceive))
  {
    var d, recv := Current(r), r.mem.recv;
    assert d.staging + recv.todo == d.staging;
    var marker := Marker(false, recv.index, recv.sections, Counts(recv.sections, d.staging));
    CommitOk(g, r, d.(marker := Some(marker)), true, r.mem.(recv := NoTransfer));
  }

  // --- installing --------------------------------------------------------------------------------

  lemma BeginInstallOk(g: Group, r: Replica, step: Step)
    requires ReplicaOk(g, r) && step.BeginInstall? && Enabled(g, r, step)
    ensures ReplicaOk(g, Next(g, r, step))
  {
    var d := Current(r);
    CommitOk(g, r, d.(marker := Some(d.marker.value.(installing := true))), true, r.mem.(inst := Installing(false, {})));
  }

  lemma WipeOk(g: Group, r: Replica)
    requires ReplicaOk(g, r) && Enabled(g, r, Wipe)
    ensures ReplicaOk(g, Next(g, r, Wipe))
  {
    var d := Current(r);
    assert Promote(d.marker.value.sections, d.staging, {}) == map[];
    CommitOk(g, r, d.(rows := map[]), false, r.mem.(inst := Installing(true, {})));
  }

  lemma CopyRowsOk(g: Group, r: Replica, step: Step)
    requires ReplicaOk(g, r) && step.CopyRows? && Enabled(g, r, step)
    ensures ReplicaOk(g, Next(g, r, step))
  {
    var d, copied := Current(r), r.mem.inst.copied;
    var sections := d.marker.value.sections;
    PromoteMore(sections, d.staging, copied, step.cells);
    CommitOk(g, r, d.(rows := d.rows + Promote(sections, d.staging, step.cells)), false, r.mem.(inst := Installing(true, copied + step.cells)));
  }

  /** The final batch: everything that must agree moves to the snapshot at once. */
  ghost predicate Agrees(g: Group, d: Disk, index: nat) {
    && index <= |g.log| && d.rows == StateAt(g, index)
    && d.applied == d.base == d.commit == Last(d) == index
    && d.staging == map[] && d.marker.None?
  }

  lemma FinalizeOk(g: Group, r: Replica)
    requires ReplicaOk(g, r) && Enabled(g, r, Finalize)
    ensures ReplicaOk(g, Next(g, r, Finalize))
    ensures Agrees(g, Current(Next(g, r, Finalize)), Current(r).marker.value.index)
  {
    var d := Current(r);
    var index := d.marker.value.index;
    PromoteAll(d.marker.value.sections, StateAt(g, index), d.staging);
    CommitOk(g, r, Disk(d.rows, index, index, [], Max(d.commit, index), map[], None), true, r.mem.(applied := index, inst := Ready));
  }

  // --- every run -----------------------------------------------------------------------------------

  lemma StepOk(g: Group, r: Replica, step: Step)
    requires ReplicaOk(g, r) && Enabled(g, r, step)
    ensures ReplicaOk(g, Next(g, r, step))
  {
    match step
    case Append(_, _, _, _) => AppendOk(g, r, step);
    case Apply => ApplyOk(g, r);
    case Compact => CompactOk(g, r);
    case BeginReceive(_, _, _) => BeginReceiveOk(g, r, step);
    case StagePage(_) => StagePageOk(g, r, step);
    case FinishReceive => FinishReceiveOk(g, r);
    case DropReceive =>
    case BeginInstall(_) => BeginInstallOk(g, r, step);
    case Wipe => WipeOk(g, r);
    case CopyRows(_) => CopyRowsOk(g, r, step);
    case Finalize => FinalizeOk(g, r);
    case Crash(_) =>
    case Restart =>
  }

  lemma {:induction false} RunOk(g: Group, run: seq<Replica>, steps: seq<Step>, i: nat)
    requires IsRun(g, run, steps) && i < |run|
    ensures ReplicaOk(g, run[i])
  {
    if i == 0 {
      assert DiskOk(g, FRESH);
    } else {
      RunOk(g, run, steps, i - 1);
      StepOk(g, run[i - 1], steps[i - 1]);
    }
  }

  /** A disk some crash of this replica could leave behind. */
  ghost predicate Survivor(r: Replica, d: Disk) {
    exists i :: r.synced <= i < |r.disks| && r.disks[i] == d
  }

  /**
   Crash replay is invisible: whenever the group loop runs, after any number
   of crashes, restarts, compactions and installs, the live rows are what the
   committed log alone yields at the applied index.
   */
  lemma ReplayIsInvisible(g: Group, run: seq<Replica>, steps: seq<Step>, i: nat)
    requires IsRun(g, run, steps) && i < |run| && Running(run[i])
    ensures run[i].mem.applied <= |g.log| && Current(run[i]).rows == StateAt(g, run[i].mem.applied)
  {
    RunOk(g, run, steps, i);
    QuietState(g, Current(run[i]).applied, run[i].mem.applied);
  }

  /**
   Whatever a crash leaves: a marker means staging is exactly the snapshot it
   names; without an install in progress the live rows are exactly the state
   at the persisted applied index; and log, commit and compaction point agree.
   */
  lemma CrashesLeaveGoodDisks(g: Group, run: seq<Replica>, steps: seq<Step>, i: nat, d: Disk)
    requires IsRun(g, run, steps) && i < |run| && Survivor(run[i], d)
    ensures d.marker.Some? ==> Staged(g, d.marker.value, d.staging)
    ensures d.applied <= |g.log| && (!Interrupted(d) ==> d.rows == StateAt(g, d.applied))
    ensures d.base <= d.commit <= Last(d) && d.applied <= d.commit && Matches(g, d)
  {
    RunOk(g, run, steps, i);
  }

  // --- recovery --------------------------------------------------------------------------------------

  ghost predicate IsStep(g: Group, r: Replica, step: Step, r': Replica) {
    Enabled(g, r, step) && r' == Next(g, r, step)
  }

  /**
   An install cut short by a crash at any point is finished by the next
   start, and ends wholly in the snapshot with every record agreeing.
   */
  lemma RecoveryInstalls(g: Group, r: Replica) returns (up: Replica, wiped: Replica, copied: Replica, done: Replica)
    requires ReplicaOk(g, r) && r.mem.Down? && Interrupted(Current(r))
    ensures IsStep(g, r, Restart, up) && IsStep(g, up, Wipe, wiped) && IsStep(g, wiped, CopyRows(Current(r).staging.Keys), copied)
    ensures IsStep(g, copied, Finalize, done) && Running(done)
    ensures Agrees(g, Current(done), Current(r).marker.value.index) && done.mem.applied == Current(r).marker.value.index
  {
    up := Next(g, r, Restart);
    StepOk(g, r, Restart);
    wiped, copied := RecoveryCopies(g, up);
    FinalizeOk(g, copied);
    done := Next(g, copied, Finalize);
  }

  lemma RecoveryCopies(g: Group, up: Replica) returns (wiped: Replica, copied: Replica)
    requires ReplicaOk(g, up) && up.mem.Up? && up.mem.inst.Installing?
    ensures IsStep(g, up, Wipe, wiped) && IsStep(g, wiped, CopyRows(Current(up).staging.Keys), copied)
    ensures ReplicaOk(g, copied) && Enabled(g, copied, Finalize) && Current(copied).marker == Current(up).marker
  {
    wiped := Next(g, up, Wipe);
    WipeOk(g, up);
    var all := Current(up).staging.Keys;
    copied := Next(g, wiped, CopyRows(all));
    CopyRowsOk(g, wiped, CopyRows(all));
    assert {} + all == all;
  }

  // --- compaction and the persisted applied index ----------------------------------------------------

  /** Whatever a crash leaves now, the replica can start from it. */
  ghost predicate Restartable(r: Replica) {
    forall i {:trigger r.disks[i]} :: r.synced <= i < |r.disks| ==> CanRestart(r.disks[i])
  }

  /** A compaction that moves the compaction point to the in-memory applied index. */
  ghost predicate Compacts(r: Replica, step: Step) {
    step.Compact? && Running(r) && Current(r).base <= r.mem.applied
  }

  /** What decides it: the persisted index is the in-memory one, or nothing was persisted yet. */
  predicate Persisted(r: Replica)
    requires Running(r)
  {
    Current(r).applied == r.mem.applied || Current(r).applied == 0
  }

  /**
   Compaction takes the in-memory applied index, which empty entries advance
   without persisting it. The disk it leaves can be restarted from exactly
   when the two were equal, or no index had been persisted at all.
   */
  lemma CompactAgreesIff(g: Group, r: Replica)
    requires ReplicaOk(g, r) && Enabled(g, r, Compact) && Compacts(r, Compact)
    ensures CanRestart(Current(Next(g, r, Compact))) <==> Persisted(r)
  {
  }

  ghost predicate GoodCompactions(run: seq<Replica>, steps: seq<Step>)
    requires |run| == |steps| + 1
  {
    forall i :: 0 <= i < |steps| && Compacts(run[i], steps[i]) ==> Persisted(run[i])
  }

  /** The part of CanRestart that steps keep: installs come and go. */
  ghost predicate Sound(r: Replica) {
    forall i {:trigger r.disks[i]} :: r.synced <= i < |r.disks| ==> r.disks[i].applied == 0 || r.disks[i].base <= r.disks[i].applied
  }

  lemma SoundStep(g: Group, r: Replica, step: Step)
    requires ReplicaOk(g, r) && Enabled(g, r, step) && Sound(r) && (Compacts(r, step) ==> Persisted(r))
    ensures Sound(Next(g, r, step))
  {
    var r' := Next(g, r, step);
    assert Current(r) == r.disks[|r.disks| - 1];
    forall i | r'.synced <= i < |r'.disks| ensures r'.disks[i].applied == 0 || r'.disks[i].base <= r'.disks[i].applied {
      if i < |r.disks| && !step.Crash? { assert r'.disks[i] == r.disks[i]; }
    }
  }

  lemma {:induction false} AlwaysSound(g: Group, run: seq<Replica>, steps: seq<Step>, i: nat)
    requires IsRun(g, run, steps) && i < |run| && GoodCompactions(run, steps)
    ensures Sound(run[i])
  {
    if i > 0 {
      RunOk(g, run, steps, i - 1);
      AlwaysSound(g, run, steps, i - 1);
      SoundStep(g, run[i - 1], steps[i - 1]);
    }
  }

  lemma BadCompactionStrands(g: Group, r: Replica)
    requires ReplicaOk(g, r) && Enabled(g, r, Compact) && Compacts(r, Compact) && !Persisted(r)
    ensures !Restartable(Next(g, r, Compact))
  {
    var r' := Next(g, r, Compact);
    CompactAgreesIff(g, r);
    assert r'.disks[|r'.disks| - 1] == Current(r');
  }

  /**
   Over whole runs: every disk a crash could ever leave can be restarted from,
   if and only if every compaction ran when the persisted applied index
   equalled the in-memory one, or was still zero.
   */
  lemma StaysRestartableIff(g: Group, run: seq<Replica>, steps: seq<Step>)
    requires IsRun(g, run, steps)
    ensures (forall i :: 0 <= i < |run| ==> Restartable(run[i])) <==> GoodCompactions(run, steps)
  {
    if GoodCompactions(run, steps) {
      forall i | 0 <= i < |run| ensures Restartable(run[i]) { AlwaysSound(g, run, steps, i); }
    } else {
      var i :| 0 <= i < |steps| && Compacts(run[i], steps[i]) && !Persisted(run[i]);
      RunOk(g, run, steps, i);
      BadCompactionStrands(g, run[i]);
      assert !Restartable(run[i + 1]);
    }
  }

  /** Restartable is the point of it: after any crash the restart is possible. */
  lemma CrashThenRestart(g: Group, r: Replica, survives: nat)
    requires ReplicaOk(g, r) && Restartable(r) && Enabled(g, r, Crash(survives))
    ensures Enabled(g, Next(g, r, Crash(survives)), Restart)
  {
    assert CanRestart(r.disks[survives]);
  }

  /** The first compaction waits until more than snapCount entries have been applied. */
  lemma FirstCompactionWaits(g: Group, r: Replica)
    requires Enabled(g, r, Compact) && Current(r).base == 0
    ensures r.mem.applied > g.snapCount && r.mem.applied > 1
  {
  }

  // --- a run that strands the replica -------------------------------------------------------------------

  ghost predicate Reaches(g: Group, r: Replica) {
    exists run, steps :: IsRun(g, run, steps) && run[|steps|] == r
  }

  lemma ReachesNext(g: Group, r: Replica, step: Step, r': Replica)
    requires Reaches(g, r) && IsStep(g, r, step, r')
    ensures Reaches(g, r')
  {
    var run, steps :| IsRun(g, run, steps) && run[|steps|] == r;
    var more, all := run + [r'], steps + [step];
    forall i | 0 <= i < |all| ensures Enabled(g, more[i], all[i]) && more[i + 1] == Next(g, more[i], all[i]) {
      if i < |steps| { assert more[i] == run[i] && more[i + 1] == run[i + 1] && all[i] == steps[i]; }
    }
    assert IsRun(g, more, all) && more[|all|] == r';
  }

  lemma ReachesNew(g: Group)
    ensures Reaches(g, NEW)
  {
    var steps: seq<Step> := [];
    assert IsRun(g, [NEW], steps) && [NEW][|steps|] == NEW;
  }

  /** The highest index up to i whose entry persists the applied index. */
  function LastPersisted(log: seq<Cmd>, i: nat): (p: nat)
    requires i <= |log|
    ensures p <= i && (p > 0 ==> !log[p - 1].Empty?) && forall j :: p <= j < i ==> log[j].Empty?
  {
    if i == 0 then 0 else if log[i - 1].Empty? then LastPersisted(log, i - 1) else i
  }

  /** A replica that took the whole log and applied its first i entries. */
  ghost predicate Applied(g: Group, r: Replica, i: nat) {
    && i <= |g.log| && Running(r) && r.mem.applied == i
    && var d := Current(r);
       d.base == 0 && d.log == g.log && d.commit == |g.log| && d.marker.None? && d.applied == LastPersisted(g.log, i)
  }

  lemma StrandAppends(g: Group) returns (r: Replica)
    requires g.log != []
    ensures Reaches(g, r) && Applied(g, r, 0)
  {
    ReachesNew(g);
    r := FirstAppend(g);
    ReachesNext(g, NEW, Append(0, g.log, |g.log|, true), r);
  }

  lemma FirstAppend(g: Group) returns (r: Replica)
    requires g.log != []
    ensures IsStep(g, NEW, Append(0, g.log, |g.log|, true), r) && Applied(g, r, 0)
  {
    var d := Disk(map[], 0, 0, g.log, |g.log|, map[], None);
    assert AppendTo(FRESH, 0, g.log, |g.log|) == d by { assert FRESH.log[..0] + g.log == g.log; }
    assert Current(NEW) == FRESH;
    assert LegalAppend(g, FRESH, 0, g.log, |g.log|);
    r := Commit(NEW, d, true, NEW.mem);
  }

  lemma AppliedNext(g: Group, r: Replica)
    requires r.mem.Up? && Applied(g, r, r.mem.applied) && r.mem.applied < |g.log|
    ensures Enabled(g, r, Apply) && Applied(g, Next(g, r, Apply), r.mem.applied + 1)
  {
  }

  lemma {:induction false} StrandApplies(g: Group, i: nat) returns (r: Replica)
    requires g.log != [] && i <= |g.log|
    ensures Reaches(g, r) && Applied(g, r, i)
  {
    if i == 0 {
      r := StrandAppends(g);
    } else {
      var before := StrandApplies(g, i - 1);
      AppliedNext(g, before);
      r := Next(g, before, Apply);
      ReachesNext(g, before, Apply, r);
    }
  }

  lemma StrandCompacts(g: Group, r: Replica)
    requires Applied(g, r, |g.log|) && |g.log| > g.snapCount && |g.log| > 1
    ensures Enabled(g, r, Compact)
    ensures var r' := Next(g, r, Compact);
            r'.synced == |r'.disks| - 1 && Current(r').base == |g.log| && Current(r').applied == LastPersisted(g.log, |g.log|) && Current(r').marker.None?
  {
  }

  /**
   For every compaction threshold and every log that reaches it, has persisted
   something and ends in an empty entry: appending, applying and compacting
   that log and then crashing leaves a replica that cannot restart.
   */
  lemma CompactionStrands(g: Group) returns (r: Replica)
    requires |g.log| > 1 && |g.log| > g.snapCount && g.log[|g.log| - 1].Empty?
    requires exists i :: 0 <= i < |g.log| && !g.log[i].Empty?
    ensures Reaches(g, r) && r.mem.Down? && !Enabled(g, r, Restart)
  {
    var full := StrandApplies(g, |g.log|);
    StrandCompacts(g, full);
    var compacted := Next(g, full, Compact);
    ReachesNext(g, full, Compact, compacted);
    r := CrashAtSync(g, compacted);
    ReachesNext(g, compacted, Crash(compacted.synced), r);
  }

  lemma CrashAtSync(g: Group, r: Replica) returns (r': Replica)
    requires r.disks != [] && r.synced == |r.disks| - 1
    ensures IsStep(g, r, Crash(r.synced), r') && r' == Replica([Current(r)], 0, Down)
  {
    r' := Replica([Current(r)], 0, Down);
  }
}
