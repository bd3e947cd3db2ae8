/**
 What a replica may promise: an entry it has acknowledged is on every disk a
 crash can leave, until the log is rewritten below it, compacted past it, or
 replaced by a snapshot.
 */
module Durability {
  import opened Bytes
  import opened Layout
  import opened Node
  import opened NodeProof

  /** A crash now can leave this disk. */
  ghost predicate Survivor(g: Group, r: Replica, d: Disk) {
    exists s: nat :: Enabled(g, r, Crash(s)) && Next(g, r, Crash(s)).disks == [d]
  }

  predicate HoldsAt(d: Disk, i: nat, e: Cmd) {
    d.base < i <= Last(d) && d.log[i - d.base - 1] == e
  }

  // --- one synced step ----------------------------------------------------------------------

  /** The steps that end in an fsync. */
  predicate Syncs(r: Replica, step: Step)
    requires r.disks != []
  {
    || (step.Append? && step.sync)
    || (step.Compact? && r.mem.Up? && Current(r).base <= r.mem.applied)
    || step.FinishReceive? || step.BeginInstall? || step.Finalize?
  }

  lemma OnlyTheLast(g: Group, r: Replica, step: Step, d: Disk)
    requires Enabled(g, r, step) && Syncs(r, step) && Survivor(g, Next(g, r, step), d)
    ensures d == Current(Next(g, r, step))
  {
  }

  /** An acknowledged append survives every crash, entry by entry, with its commit index. */
  lemma AppendSurvives(g: Group, r: Replica, keep: nat, entries: seq<Cmd>, commit: nat, d: Disk)
    requires Enabled(g, r, Append(keep, entries, commit, true)) && Survivor(g, Next(g, r, Append(keep, entries, commit, true)), d)
    ensures d.base == Current(r).base && d.commit == commit && Last(d) == d.base + keep + |entries|
    ensures forall j :: 0 <= j < |entries| ==> HoldsAt(d, d.base + keep + 1 + j, entries[j])
    ensures forall i, e :: d.base < i <= d.base + keep && HoldsAt(Current(r), i, e) ==> HoldsAt(d, i, e)
  {
    OnlyTheLast(g, r, Append(keep, entries, commit, true), d);
  }

  /** What the other synced steps leave, whatever crashes: the compaction point, the marker, the install. */
  lemma SyncedStepSurvives(g: Group, r: Replica, step: Step, d: Disk)
    requires Enabled(g, r, step) && Syncs(r, step) && Survivor(g, Next(g, r, step), d)
    ensures step.Compact? ==> d.base == r.mem.applied
    ensures step.FinishReceive? ==> d.marker.Some? && !d.marker.value.installing && d.marker.value.index == r.mem.recv.index
    ensures step.BeginInstall? ==> Interrupted(d) && d.marker.value.index == step.index
    ensures step.Finalize? ==> d.marker.None? && d.applied == d.base == Current(r).marker.value.index
  {
    OnlyTheLast(g, r, step, d);
  }

  // --- over whole paths -----------------------------------------------------------------------

  ghost predicate IsPath(g: Group, run: seq<Replica>, steps: seq<Step>) {
    && |run| == |steps| + 1
    && forall i :: 0 <= i < |steps| ==> Enabled(g, run[i], steps[i]) && run[i + 1] == Next(g, run[i], steps[i])
  }

  /** The entry is there, or the log starts past it. */
  predicate Kept(d: Disk, i: nat, e: Cmd) {
    i <= d.base || HoldsAt(d, i, e)
  }

  /** The step gives the entry at i up: it rewrites the log from below, or installs a snapshot from below. */
  predicate Drops(r: Replica, step: Step, i: nat)
    requires r.disks != []
  {
    || (step.Append? && Current(r).base + step.keep < i)
    || (step.Finalize? && Current(r).marker.Some? && Current(r).marker.value.index < i)
  }

  ghost predicate AllKeep(r: Replica, i: nat, e: Cmd, commit: nat) {
    && r.synced < |r.disks|
    && forall s {:trigger r.disks[s]} :: r.synced <= s < |r.disks| ==> Kept(r.disks[s], i, e) && commit <= r.disks[s].commit
  }

  lemma AppendKeeps(d: Disk, keep: nat, entries: seq<Cmd>, commit: nat, i: nat, e: Cmd)
    requires Kept(d, i, e) && keep <= |d.log| && i <= d.base + keep
    ensures Kept(AppendTo(d, keep, entries, commit), i, e)
  {
  }

  lemma CompactKeeps(d: Disk, at: nat, i: nat, e: Cmd)
    requires Kept(d, i, e) && d.base <= at <= Last(d)
    ensures Kept(d.(base := at, log := d.log[at - d.base..]), i, e)
  {
    if at < i { assert d.log[at - d.base..][i - at - 1] == d.log[i - d.base - 1]; }
  }

  lemma KeepStep(g: Group, r: Replica, step: Step, i: nat, e: Cmd, commit: nat)
    requires Enabled(g, r, step) && AllKeep(r, i, e, commit) && !Drops(r, step, i)
    ensures AllKeep(Next(g, r, step), i, e, commit)
  {
    var d, r' := Current(r), Next(g, r, step);
    assert d == r.disks[|r.disks| - 1];
    if step.Append? { AppendKeeps(d, step.keep, step.entries, step.commit, i, e); }
    if step.Compact? && d.base <= r.mem.applied { CompactKeeps(d, r.mem.applied, i, e); }
    forall s | r'.synced <= s < |r'.disks| ensures Kept(r'.disks[s], i, e) && commit <= r'.disks[s].commit {
      if s < |r.disks| && !step.Crash? { assert r'.disks[s] == r.disks[s]; }
    }
  }

  lemma AcknowledgedNow(g: Group, r: Replica, step: Step, j: nat)
    requires Enabled(g, r, step) && step.Append? && step.sync && j < |step.entries|
    ensures AllKeep(Next(g, r, step), Current(r).base + step.keep + 1 + j, step.entries[j], step.commit)
  {
  }

  lemma {:induction false} KeptAlong(g: Group, run: seq<Replica>, steps: seq<Step>, a: nat, b: nat, j: nat)
    requires IsPath(g, run, steps) && a < b < |run| && steps[a].Append? && steps[a].sync && j < |steps[a].entries| && run[a].disks != []
    requires forall l :: a < l < b ==> run[l].disks != [] && !Drops(run[l], steps[l], Current(run[a]).base + steps[a].keep + 1 + j)
    ensures AllKeep(run[b], Current(run[a]).base + steps[a].keep + 1 + j, steps[a].entries[j], steps[a].commit)
    decreases b
  {
    if b == a + 1 {
      AcknowledgedNow(g, run[a], steps[a], j);
    } else {
      KeptAlong(g, run, steps, a, b - 1, j);
      KeepStep(g, run[b - 1], steps[b - 1], Current(run[a]).base + steps[a].keep + 1 + j, steps[a].entries[j], steps[a].commit);
    }
  }

  /**
   Over any path: an entry acknowledged by a synced append is on every disk
   any later crash can leave, at its index, or the log starts past that index,
   as long as no append rewrites the log below it and no snapshot from below
   is installed. The commit index acknowledged with it is never lost either.
   */
  lemma AcknowledgedSurvives(g: Group, run: seq<Replica>, steps: seq<Step>, a: nat, b: nat, j: nat, d: Disk)
    requires IsPath(g, run, steps) && a < b < |run| && steps[a].Append? && steps[a].sync && j < |steps[a].entries| && run[a].disks != []
    requires forall l :: a < l < b ==> run[l].disks != [] && !Drops(run[l], steps[l], Current(run[a]).base + steps[a].keep + 1 + j)
    requires Survivor(g, run[b], d)
    ensures var i := Current(run[a]).base + steps[a].keep + 1 + j; (i <= d.base || HoldsAt(d, i, steps[a].entries[j])) && steps[a].commit <= d.commit
  {
    KeptAlong(g, run, steps, a, b, j);
    var s: nat :| Enabled(g, run[b], Crash(s)) && Next(g, run[b], Crash(s)).disks == [d];
    assert run[b].disks[s] == d;
  }

  /** Raft never gives up a committed entry, and installs only what is ahead of the commit index. */
  lemma CommittedNotDropped(g: Group, r: Replica, step: Step, i: nat)
    requires ReplicaOk(g, r) && Enabled(g, r, step) && i <= Current(r).commit
    ensures !Drops(r, step, i)
  {
    assert Current(r) == r.disks[|r.disks| - 1];
  }

  lemma {:induction false} CommittedAlong(g: Group, run: seq<Replica>, steps: seq<Step>, a: nat, b: nat, j: nat)
    requires IsRun(g, run, steps) && a < b < |run| && steps[a].Append? && steps[a].sync && j < |steps[a].entries|
    requires run[a].disks != [] && Current(run[a]).base + steps[a].keep + 1 + j <= steps[a].commit
    ensures AllKeep(run[b], Current(run[a]).base + steps[a].keep + 1 + j, steps[a].entries[j], steps[a].commit)
    decreases b
  {
    var i := Current(run[a]).base + steps[a].keep + 1 + j;
    if b == a + 1 {
      AcknowledgedNow(g, run[a], steps[a], j);
    } else {
      CommittedAlong(g, run, steps, a, b - 1, j);
      RunOk(g, run, steps, b - 1);
      assert Current(run[b - 1]) == run[b - 1].disks[|run[b - 1].disks| - 1];
      CommittedNotDropped(g, run[b - 1], steps[b - 1], i);
      KeepStep(g, run[b - 1], steps[b - 1], i, steps[a].entries[j], steps[a].commit);
    }
  }

  /** In every run, an entry acknowledged together with its commit is never lost, whatever happens later. */
  lemma CommittedSurvives(g: Group, run: seq<Replica>, steps: seq<Step>, a: nat, b: nat, j: nat, d: Disk)
    requires IsRun(g, run, steps) && a < b < |run| && steps[a].Append? && steps[a].sync && j < |steps[a].entries|
    requires run[a].disks != [] && Current(run[a]).base + steps[a].keep + 1 + j <= steps[a].commit && Survivor(g, run[b], d)
    ensures var i := Current(run[a]).base + steps[a].keep + 1 + j; i <= d.base || HoldsAt(d, i, steps[a].entries[j])
  {
    CommittedAlong(g, run, steps, a, b, j);
    var s: nat :| Enabled(g, run[b], Crash(s)) && Next(g, run[b], Crash(s)).disks == [d];
    assert run[b].disks[s] == d;
  }
}
