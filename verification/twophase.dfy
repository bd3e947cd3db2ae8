/**
 Cross-group two-phase commit: intents staged in every participating group, a
 durable decision record, and a janitor that finishes what a crashed
 coordinator left behind.

 One transaction is followed through its groups while everything else those
 groups do, including other transactions, goes on around it.
 */
module TwoPhase {
  import opened Bytes
  import opened Layout
  import opened Kv
  import opened Mvcc

  type Gid = nat

  /** A transaction's share of one group. */
  datatype Part = Part(seen: map<Key, nat>, writes: seq<TxWrite>)

  datatype Tx = Tx(id: Key, parts: map<Gid, Part>)

  datatype Decision = Pending | Committed | Aborted

  /** Where the coordinator, or the janitor that took over from it, stands. */
  datatype Actor =
    | Start
    | Preparing(todo: set<Gid>)
    | RollingBack
    | Aborting(todo: set<Gid>)
    | Committing(todo: set<Gid>)
    | Stopped

  /** `wrote` lists, per group, every write this transaction ever performed. */
  datatype System = System(groups: map<Gid, State>, record: Option<Decision>, actor: Actor, wrote: map<Gid, seq<TxWrite>>)

  datatype Step =
    | Other(gid: Gid, n: nat, op: Op)
    | PutPending
    | Prepare(gid: Gid, n: nat, delivered: bool, acked: bool)
    | Decide(written: bool, acked: bool)
    | PutAborted
    | Abort(gid: Gid, n: nat)
    | Commit(gid: Gid, n: nat)
    | DeleteRecord
    | Crash
    | Janitor

  predicate Names(op: Op, txid: Key) {
    (op.TxPrepare? || op.TxCommit? || op.TxAbort?) && op.txid == txid
  }

  function PrepareOp(tx: Tx, gid: Gid): Op
    requires gid in tx.parts
  {
    TxPrepare(tx.id, tx.parts[gid].seen, tx.parts[gid].writes)
  }

  ghost predicate Enabled(tx: Tx, sys: System, step: Step) {
    match step
    case Other(gid, _, op) => gid in sys.groups && !Names(op, tx.id)
    case PutPending => sys.actor.Start?
    case Prepare(gid, _, _, _) => sys.actor.Preparing? && gid in sys.actor.todo && gid in sys.groups && gid in tx.parts
    case Decide(_, _) => sys.actor == Preparing({})
    case PutAborted => sys.actor.RollingBack?
    case Abort(gid, _) => sys.actor.Aborting? && gid in sys.actor.todo && gid in sys.groups
    case Commit(gid, _) => sys.actor.Committing? && gid in sys.actor.todo && gid in sys.groups && gid in sys.wrote
    case DeleteRecord => sys.actor == Aborting({}) || sys.actor == Committing({})
    case Crash => true
    case Janitor => sys.actor.Stopped? && sys.record.Some?
  }

  ghost function Propose(c: Config, sys: System, gid: Gid, n: nat, op: Op): System
    requires gid in sys.groups
  {
    sys.(groups := sys.groups[gid := Apply(c, sys.groups[gid], n, op)])
  }

  ghost function Next(c: Config, tx: Tx, sys: System, step: Step): System
    requires Enabled(tx, sys, step)
  {
    match step
    case Other(gid, n, op) => Propose(c, sys, gid, n, op)
    case PutPending => sys.(record := Some(Pending), actor := Preparing(tx.parts.Keys))
    case Prepare(gid, n, delivered, acked) =>
      var ok := delivered && acked && Rejection(c, sys.groups[gid], PrepareOp(tx, gid)).None?;
      (if delivered then Propose(c, sys, gid, n, PrepareOp(tx, gid)) else sys).(
        actor := if ok then Preparing(sys.actor.todo - {gid}) else RollingBack)
    case Decide(written, acked) =>
      sys.(record := if written then Some(Committed) else sys.record,
           actor := if written && acked then Committing(tx.parts.Keys) else Stopped)
    case PutAborted => sys.(record := Some(Aborted), actor := Aborting(tx.parts.Keys))
    case Abort(gid, n) => Propose(c, sys, gid, n, TxAbort(tx.id)).(actor := Aborting(sys.actor.todo - {gid}))
    case Commit(gid, n) =>
      Propose(c, sys, gid, n, TxCommit(tx.id)).(
        actor := Committing(sys.actor.todo - {gid}),
        wrote := sys.wrote[gid := sys.wrote[gid] + WritesOf(sys.groups[gid], TxCommit(tx.id))])
    case DeleteRecord => sys.(record := None, actor := Stopped)
    case Crash => sys.(actor := Stopped)
    case Janitor => sys.(actor := if sys.record == Some(Committed) then Committing(tx.parts.Keys) else RollingBack)
  }

  /** Before the transaction: its id is fresh in every group. */
  ghost predicate Initial(tx: Tx, sys: System) {
    && sys.actor.Start? && sys.record.None?
    && sys.wrote == (map g | g in tx.parts :: [])
    && (forall g :: g in tx.parts ==> g in sys.groups)
    && (forall g :: g in sys.groups ==> TxKeys(sys.groups[g], tx.id) == {})
  }

  ghost predicate IsPath(c: Config, tx: Tx, run: seq<System>, steps: seq<Step>) {
    && |run| == |steps| + 1
    && forall i :: 0 <= i < |steps| ==> Enabled(tx, run[i], steps[i]) && run[i + 1] == Next(c, tx, run[i], steps[i])
  }

  ghost predicate IsRun(c: Config, tx: Tx, run: seq<System>, steps: seq<Step>) {
    IsPath(c, tx, run, steps) && Initial(tx, run[0])
  }

  // --- intents of one group ------------------------------------------------------------

  /** The group holds this transaction's intents, all of them and no others. */
  ghost predicate Holding(s: State, txid: Key, ws: seq<TxWrite>) {
    && TxKeys(s, txid) == WriteKeys(ws)
    && forall k :: k in WriteKeys(ws) ==> s.intents[k] == Intent(txid, ws)
  }

  ghost predicate Clean(s: State, txid: Key) {
    TxKeys(s, txid) == {}
  }

  lemma ApplyIntents(c: Config, s: State, n: nat, op: Op)
    ensures Apply(c, s, n, op).intents == ApplyOp(c, s, n, op).intents
    ensures Apply(c, s, n, op).intents ==
            if Rejection(c, s, op).Some? then s.intents
            else if op.TxPrepare? then s.intents + map k | k in WriteKeys(op.writes) :: Intent(op.txid, op.writes)
            else if op.TxCommit? || op.TxAbort? then s.intents - TxKeys(s, op.txid)
            else s.intents
  {
    StageFrame(s, n, WritesOf(s, op));
  }

  lemma {:induction false} BadWriteNone(c: Config, s: State, txid: Key, ws: seq<TxWrite>)
    requires BadWrite(c, s, Some(txid), ws).None?
    ensures forall k :: k in WriteKeys(ws) && k in s.intents ==> s.intents[k].txid == txid
  {
    if ws != [] {
      BadWriteNone(c, s, txid, ws[1..]);
      forall k | k in WriteKeys(ws) && k in s.intents ensures s.intents[k].txid == txid {
        var i :| 0 <= i < |ws| && ws[i].key == k;
        if i > 0 { assert ws[1..][i - 1].key == k && k in WriteKeys(ws[1..]); }
      }
    }
  }

  /** No other command adds, removes or replaces this transaction's intents. */
  lemma OthersKeepIntents(c: Config, s: State, n: nat, op: Op, txid: Key)
    requires !Names(op, txid)
    ensures var t := Apply(c, s, n, op);
            TxKeys(t, txid) == TxKeys(s, txid) && forall k :: k in TxKeys(s, txid) ==> t.intents[k] == s.intents[k]
  {
    ApplyIntents(c, s, n, op);
    if op.TxPrepare? && Rejection(c, s, op).None? { BadWriteNone(c, s, op.txid, op.writes); }
  }

  lemma PrepareHolds(c: Config, s: State, n: nat, tx: Tx, gid: Gid)
    requires gid in tx.parts && Clean(s, tx.id)
    ensures var t := Apply(c, s, n, PrepareOp(tx, gid));
            if Rejection(c, s, PrepareOp(tx, gid)).None? then Holding(t, tx.id, tx.parts[gid].writes) else Clean(t, tx.id)
  {
    var op := PrepareOp(tx, gid);
    ApplyIntents(c, s, n, op);
    var t := Apply(c, s, n, op);
    if Rejection(c, s, op).None? {
      forall k | k in s.intents ensures s.intents[k].txid != tx.id { assert k !in TxKeys(s, tx.id); }
      assert TxKeys(t, tx.id) == WriteKeys(op.writes);
    } else {
      assert t.intents == s.intents;
    }
  }

  /** Commit and abort both drop every intent of the transaction, and only those. */
  lemma ResolveCleans(c: Config, s: State, n: nat, op: Op)
    requires op.TxCommit? || op.TxAbort?
    ensures Clean(Apply(c, s, n, op), op.txid)
  {
    ApplyIntents(c, s, n, op);
  }

  // --- what a commit writes ---------------------------------------------------------------

  predicate Mentions(ws: seq<TxWrite>, k: Key) {
    exists i :: 0 <= i < |ws| && ws[i].key == k
  }

  /** Writes to keys already written are dropped. */
  lemma {:induction false} FirstWinsRepeats(ws: seq<TxWrite>, more: seq<TxWrite>)
    requires forall i :: 0 <= i < |more| ==> Mentions(ws, more[i].key)
    ensures FirstWins(ws + more) == FirstWins(ws)
    decreases |more|
  {
    if more == [] {
      assert ws + more == ws;
    } else {
      var init, last := more[..|more| - 1], more[|more| - 1];
      var all := ws + more;
      assert all[..|all| - 1] == ws + init && all[|all| - 1] == last;
      FirstWinsRepeats(ws, init);
      var i :| 0 <= i < |ws| && ws[i].key == last.key;
      assert (ws + init)[i].key == last.key;
    }
  }

  /** Every intent carries the whole write list; the copies collapse to one. */
  lemma {:induction false} CopiesCollapse(intents: map<Key, Intent>, keys: seq<Key>, txid: Key, ws: seq<TxWrite>)
    requires keys != [] && forall k :: k in keys ==> k in intents && intents[k] == Intent(txid, ws)
    ensures FirstWins(IntentWrites(intents, keys)) == FirstWins(ws)
    ensures forall i :: 0 <= i < |ws| ==> Mentions(IntentWrites(intents, keys), ws[i].key)
    decreases |keys|
  {
    var init := keys[..|keys| - 1];
    assert keys[|keys| - 1] in keys && forall k :: k in init ==> k in keys;
    var rest := IntentWrites(intents, init);
    assert IntentWrites(intents, keys) == rest + ws;
    if init == [] {
      assert rest + ws == ws;
    } else {
      CopiesCollapse(intents, init, txid, ws);
      FirstWinsRepeats(rest, ws);
    }
    LaterMentions(rest, ws);
  }

  lemma LaterMentions(rest: seq<TxWrite>, ws: seq<TxWrite>)
    ensures forall i :: 0 <= i < |ws| ==> Mentions(rest + ws, ws[i].key)
  {
    forall i | 0 <= i < |ws| ensures Mentions(rest + ws, ws[i].key) { assert (rest + ws)[|rest| + i].key == ws[i].key; }
  }

  lemma CommitWritesOf(s: State, txid: Key, ws: seq<TxWrite>)
    ensures Holding(s, txid, ws) ==> CommitWrites(s, txid) == FirstWins(ws)
    ensures Clean(s, txid) ==> CommitWrites(s, txid) == []
  {
    if Holding(s, txid, ws) {
      if ws == [] {
        assert TxKeys(s, txid) == {};
      } else {
        assert ws[0].key in WriteKeys(ws);
        CopiesCollapse(s.intents, Sorted(TxKeys(s, txid)), txid, ws);
      }
    }
  }

  // --- the invariant -------------------------------------------------------------------------

  /** A group is untouched, holds the intents, or is finished. */
  ghost predicate Settled(tx: Tx, sys: System, gid: Gid, decided: bool)
    requires gid in tx.parts && gid in sys.groups && gid in sys.wrote
  {
    Clean(sys.groups[gid], tx.id) && sys.wrote[gid] == if decided then FirstWins(tx.parts[gid].writes) else []
  }

  ghost predicate Waiting(tx: Tx, sys: System, gid: Gid)
    requires gid in tx.parts && gid in sys.groups && gid in sys.wrote
  {
    Holding(sys.groups[gid], tx.id, tx.parts[gid].writes) && sys.wrote[gid] == []
  }

  /** The decision is durable from the moment the record says committed. */
  ghost predicate GroupOk(tx: Tx, sys: System, decided: bool, gid: Gid)
    requires gid in tx.parts
  {
    && gid in sys.groups && gid in sys.wrote
    && (Settled(tx, sys, gid, decided) || Waiting(tx, sys, gid))
    && match sys.actor
       case Start => Settled(tx, sys, gid, decided)
       case Preparing(todo) => if gid in todo then Settled(tx, sys, gid, decided) else Waiting(tx, sys, gid)
       case RollingBack => true
       case Aborting(todo) => gid !in todo ==> Settled(tx, sys, gid, decided)
       case Committing(todo) => gid !in todo ==> Settled(tx, sys, gid, decided)
       case Stopped => sys.record.None? ==> Settled(tx, sys, gid, decided)
  }

  predicate Phase(tx: Tx, sys: System, decided: bool) {
    match sys.actor
    case Start => sys.record.None? && !decided
    case Preparing(todo) => sys.record == Some(Pending) && !decided && todo <= tx.parts.Keys
    case RollingBack => sys.record.Some? && sys.record.value != Committed && !decided
    case Aborting(todo) => sys.record == Some(Aborted) && !decided && todo <= tx.parts.Keys
    case Committing(todo) => sys.record == Some(Committed) && decided && todo <= tx.parts.Keys
    case Stopped => sys.record.Some? ==> (decided <==> sys.record == Some(Committed))
  }

  ghost predicate InvAt(tx: Tx, sys: System, decided: bool) {
    Phase(tx, sys, decided) && forall g {:trigger GroupOk(tx, sys, decided, g)} :: g in tx.parts ==> GroupOk(tx, sys, decided, g)
  }

  ghost predicate Inv(tx: Tx, sys: System) {
    exists decided :: InvAt(tx, sys, decided)
  }

  /** The outcome after a step: only writing the record as committed decides. */
  function DecidedAfter(decided: bool, step: Step): bool {
    decided || (step.Decide? && step.written)
  }

  /** Steps that propose nothing to the groups. */
  lemma QuietGroup(c: Config, tx: Tx, sys: System, step: Step, decided: bool, g: Gid)
    requires Phase(tx, sys, decided) && Enabled(tx, sys, step) && g in tx.parts && GroupOk(tx, sys, decided, g)
    requires !step.Other? && !step.Prepare? && !step.Abort? && !step.Commit?
    ensures GroupOk(tx, Next(c, tx, sys, step), DecidedAfter(decided, step), g)
  {
  }

  lemma OtherGroup(c: Config, tx: Tx, sys: System, step: Step, decided: bool, g: Gid)
    requires Enabled(tx, sys, step) && g in tx.parts && GroupOk(tx, sys, decided, g) && step.Other?
    ensures GroupOk(tx, Next(c, tx, sys, step), decided, g)
  {
    OthersKeepIntents(c, sys.groups[g], step.n, step.op, tx.id);
  }

  lemma PreparedGroup(c: Config, tx: Tx, sys: System, step: Step, decided: bool, g: Gid)
    requires Phase(tx, sys, decided) && Enabled(tx, sys, step) && g in tx.parts && GroupOk(tx, sys, decided, g) && step.Prepare?
    ensures GroupOk(tx, Next(c, tx, sys, step), decided, g)
  {
    if step.gid == g { PrepareHolds(c, sys.groups[g], step.n, tx, g); }
  }

  lemma AbortedGroup(c: Config, tx: Tx, sys: System, step: Step, decided: bool, g: Gid)
    requires Phase(tx, sys, decided) && Enabled(tx, sys, step) && g in tx.parts && GroupOk(tx, sys, decided, g) && step.Abort?
    ensures GroupOk(tx, Next(c, tx, sys, step), decided, g)
  {
    if step.gid == g { ResolveCleans(c, sys.groups[g], step.n, TxAbort(tx.id)); }
  }

  /** Committing performs the prepared writes if they wait, and nothing if they are done. */
  lemma CommitSettles(c: Config, s: State, n: nat, txid: Key, ws: seq<TxWrite>, before: seq<TxWrite>)
    requires (Clean(s, txid) && before == FirstWins(ws)) || (Holding(s, txid, ws) && before == [])
    ensures Clean(Apply(c, s, n, TxCommit(txid)), txid)
    ensures before + WritesOf(s, TxCommit(txid)) == FirstWins(ws)
  {
    ResolveCleans(c, s, n, TxCommit(txid));
    CommitAdds(s, txid, ws, before);
  }

  lemma CommitAdds(s: State, txid: Key, ws: seq<TxWrite>, before: seq<TxWrite>)
    requires (Clean(s, txid) && before == FirstWins(ws)) || (Holding(s, txid, ws) && before == [])
    ensures before + WritesOf(s, TxCommit(txid)) == FirstWins(ws)
  {
    CommitWritesOf(s, txid, ws);
    assert FirstWins(ws) + [] == FirstWins(ws) && [] + FirstWins(ws) == FirstWins(ws);
  }

  lemma CommittedGroup(c: Config, tx: Tx, sys: System, step: Step, decided: bool, g: Gid)
    requires Phase(tx, sys, decided) && Enabled(tx, sys, step) && g in tx.parts && GroupOk(tx, sys, decided, g) && step.Commit?
    ensures GroupOk(tx, Next(c, tx, sys, step), decided, g)
  {
    if step.gid == g { CommitSettles(c, sys.groups[g], step.n, tx.id, tx.parts[g].writes, sys.wrote[g]); }
  }

  lemma StepGroup(c: Config, tx: Tx, sys: System, step: Step, decided: bool, g: Gid)
    requires Phase(tx, sys, decided) && Enabled(tx, sys, step) && g in tx.parts && GroupOk(tx, sys, decided, g)
    ensures GroupOk(tx, Next(c, tx, sys, step), DecidedAfter(decided, step), g)
  {
    match step
    case Other(_, _, _) => OtherGroup(c, tx, sys, step, decided, g);
    case Prepare(_, _, _, _) => PreparedGroup(c, tx, sys, step, decided, g);
    case Abort(_, _) => AbortedGroup(c, tx, sys, step, decided, g);
    case Commit(_, _) => CommittedGroup(c, tx, sys, step, decided, g);
    case _ => QuietGroup(c, tx, sys, step, decided, g);
  }

  lemma StepInv(c: Config, tx: Tx, sys: System, step: Step, decided: bool)
    requires InvAt(tx, sys, decided) && Enabled(tx, sys, step)
    ensures InvAt(tx, Next(c, tx, sys, step), DecidedAfter(decided, step))
  {
    forall g | g in tx.parts ensures GroupOk(tx, Next(c, tx, sys, step), DecidedAfter(decided, step), g) {
      StepGroup(c, tx, sys, step, decided, g);
    }
  }

  function DecidedIn(steps: seq<Step>): bool
    decreases |steps|
  {
    steps != [] && DecidedAfter(DecidedIn(steps[..|steps| - 1]), steps[|steps| - 1])
  }

  lemma {:induction false} RunInv(c: Config, tx: Tx, run: seq<System>, steps: seq<Step>, i: nat)
    requires IsRun(c, tx, run, steps) && i < |run|
    ensures InvAt(tx, run[i], DecidedIn(steps[..i]))
  {
    if i == 0 {
      forall g | g in tx.parts ensures GroupOk(tx, run[0], false, g) { }
    } else {
      RunInv(c, tx, run, steps, i - 1);
      StepInv(c, tx, run[i - 1], steps[i - 1], DecidedIn(steps[..i - 1]));
      assert steps[..i][..i - 1] == steps[..i - 1];
    }
  }

  // --- main results ----------------------------------------------------------------------------

  /**
   Once the status record is gone and nobody is acting on it, no intent of the
   transaction is left anywhere, and either every group has performed exactly
   its prepared writes, once, or no group has performed any.
   */
  lemma AllOrNothing(c: Config, tx: Tx, run: seq<System>, steps: seq<Step>, i: nat)
    requires IsRun(c, tx, run, steps) && i < |run| && run[i].actor.Stopped? && run[i].record.None?
    ensures forall g :: g in tx.parts ==> g in run[i].groups && g in run[i].wrote && TxKeys(run[i].groups[g], tx.id) == {}
    ensures if exists j :: 0 <= j < i && steps[j].Decide? && steps[j].written
            then forall g :: g in tx.parts ==> run[i].wrote[g] == FirstWins(tx.parts[g].writes)
            else forall g :: g in tx.parts ==> run[i].wrote[g] == []
  {
    RunInv(c, tx, run, steps, i);
    DecidedInSteps(steps[..i]);
    var decided := DecidedIn(steps[..i]);
    assert decided <==> exists j :: 0 <= j < i && steps[j].Decide? && steps[j].written by {
      if decided {
        var j :| 0 <= j < i && steps[..i][j].Decide? && steps[..i][j].written;
        assert steps[j].Decide? && steps[j].written;
      }
      assert forall j :: 0 <= j < i ==> steps[..i][j] == steps[j];
    }
    forall g | g in tx.parts
      ensures g in run[i].groups && g in run[i].wrote && Settled(tx, run[i], g, decided)
    {
      assert GroupOk(tx, run[i], decided, g);
    }
  }

  lemma {:induction false} DecidedInSteps(steps: seq<Step>)
    ensures DecidedIn(steps) <==> exists j :: 0 <= j < |steps| && steps[j].Decide? && steps[j].written
    decreases |steps|
  {
    if steps != [] {
      var init := steps[..|steps| - 1];
      DecidedInSteps(init);
      assert forall j :: 0 <= j < |init| ==> init[j] == steps[j];
      if DecidedIn(init) {
        var j :| 0 <= j < |init| && init[j].Decide? && init[j].written;
        assert steps[j].Decide? && steps[j].written;
      } else if DecidedIn(steps) {
        assert steps[|steps| - 1].Decide? && steps[|steps| - 1].written;
      }
    }
  }

  /**
   At every moment of every run: if one group has performed a write of the
   transaction, every other has performed its own or still holds every intent
   it needs to.
   */
  lemma NoHalfCommit(c: Config, tx: Tx, run: seq<System>, steps: seq<Step>, i: nat, g: Gid, h: Gid)
    requires IsRun(c, tx, run, steps) && i < |run| && g in tx.parts && h in tx.parts
    requires g in run[i].wrote && run[i].wrote[g] != []
    ensures g in run[i].groups && h in run[i].groups && h in run[i].wrote
    ensures run[i].wrote[g] == FirstWins(tx.parts[g].writes) && TxKeys(run[i].groups[g], tx.id) == {}
    ensures Settled(tx, run[i], h, true) || Waiting(tx, run[i], h)
    ensures run[i].record.None? || run[i].record == Some(Committed)
  {
    RunInv(c, tx, run, steps, i);
    assert GroupOk(tx, run[i], DecidedIn(steps[..i]), g);
    assert GroupOk(tx, run[i], DecidedIn(steps[..i]), h);
  }

  /** What committing a group that holds the intents makes its readers see. */
  lemma CommitMaterializes(c: Config, s: State, n: nat, txid: Key, ws: seq<TxWrite>, k: Key)
    requires Holding(s, txid, ws)
    ensures Lookup(Apply(c, s, n, TxCommit(txid)).latest, k) == Mvcc.After(s, n, FirstWins(ws), k)
  {
    EntryLatest(c, s, n, TxCommit(txid), k);
    CommitPerforms(c, s, txid, ws);
  }

  /** Of several prepared writes to one key the first is the one performed; a key not mentioned stays. */
  lemma FirstWriteWins(c: Config, s: State, n: nat, txid: Key, ws: seq<TxWrite>, k: Key)
    requires Holding(s, txid, ws)
    ensures var left := Lookup(Apply(c, s, n, TxCommit(txid)).latest, k);
            && (forall i :: 0 <= i < |ws| && ws[i].key == k && (forall j :: 0 <= j < i ==> ws[j].key != k) ==>
                  left == if ws[i].delete then None else Some(Record(n, ws[i].value, ws[i].blob)))
            && ((forall i :: 0 <= i < |ws| ==> ws[i].key != k) ==> left == Lookup(s.latest, k))
  {
    CommitMaterializes(c, s, n, txid, ws, k);
    FirstWinsLast(ws, k);
    FirstWriteMentions(ws, k);
    forall i | 0 <= i < |ws| && ws[i].key == k && (forall j :: 0 <= j < i ==> ws[j].key != k) ensures FirstWrite(ws, k) == Some(ws[i]) {
      FirstWriteAt(ws, k, i);
    }
  }

  lemma {:induction false} FirstWriteAt(ws: seq<TxWrite>, k: Key, i: nat)
    requires i < |ws| && ws[i].key == k && forall j :: 0 <= j < i ==> ws[j].key != k
    ensures FirstWrite(ws, k) == Some(ws[i])
    decreases |ws|
  {
    var init := ws[..|ws| - 1];
    if i < |init| {
      FirstWriteAt(init, k, i);
    } else {
      FirstWriteMentions(init, k);
    }
  }

  lemma CommitPerforms(c: Config, s: State, txid: Key, ws: seq<TxWrite>)
    requires Holding(s, txid, ws)
    ensures Performed(c, s, TxCommit(txid)) == FirstWins(ws)
  {
    CommitWritesOf(s, txid, ws);
  }

  /** A repeated tx_commit, or one after an abort, changes no record. */
  lemma RepeatWritesNothing(c: Config, s: State, n: nat, txid: Key, k: Key)
    requires Clean(s, txid)
    ensures Lookup(Apply(c, s, n, TxCommit(txid)).latest, k) == Lookup(s.latest, k)
  {
    EntryLatest(c, s, n, TxCommit(txid), k);
    CommitWritesOf(s, txid, []);
  }

  // --- recovery ---------------------------------------------------------------------------------

  /** One uninterrupted pass of the actor resolves the transaction. */
  lemma {:induction false} PassResolves(c: Config, tx: Tx, sys: System, n: nat) returns (run: seq<System>, steps: seq<Step>)
    requires Inv(tx, sys) && (sys.actor.Aborting? || sys.actor.Committing?)
    ensures IsPath(c, tx, run, steps) && run[0] == sys
    ensures run[|run| - 1].record.None? && run[|run| - 1].actor.Stopped?
    decreases |sys.actor.todo|
  {
    if sys.actor.todo == {} {
      run, steps := [sys, Next(c, tx, sys, DeleteRecord)], [DeleteRecord];
    } else {
      var step, next := ResolveOne(c, tx, sys, n);
      var rest, more := PassResolves(c, tx, next, n);
      run, steps := [sys] + rest, [step] + more;
      PathCons(c, tx, sys, step, rest, more);
    }
  }

  /** One proposal of a pass: one group fewer to go. */
  lemma ResolveOne(c: Config, tx: Tx, sys: System, n: nat) returns (step: Step, next: System)
    requires Inv(tx, sys) && (sys.actor.Aborting? || sys.actor.Committing?) && sys.actor.todo != {}
    ensures Enabled(tx, sys, step) && next == Next(c, tx, sys, step) && Inv(tx, next)
    ensures (next.actor.Aborting? || next.actor.Committing?) && |next.actor.todo| < |sys.actor.todo|
  {
    var decided :| InvAt(tx, sys, decided);
    var gid :| gid in sys.actor.todo;
    assert GroupOk(tx, sys, decided, gid);
    step := if sys.actor.Aborting? then Abort(gid, n) else Commit(gid, n);
    next := Next(c, tx, sys, step);
    StepInv(c, tx, sys, step, decided);
  }

  lemma PathCons(c: Config, tx: Tx, sys: System, step: Step, run: seq<System>, steps: seq<Step>)
    requires IsPath(c, tx, run, steps) && Enabled(tx, sys, step) && run[0] == Next(c, tx, sys, step)
    ensures IsPath(c, tx, [sys] + run, [step] + steps)
  {
    var r, t := [sys] + run, [step] + steps;
    forall i | 0 <= i < |t| ensures Enabled(tx, r[i], t[i]) && r[i + 1] == Next(c, tx, r[i], t[i]) {
      if i > 0 { assert r[i] == run[i - 1] && t[i] == steps[i - 1] && r[i + 1] == run[i]; }
    }
  }

  /** From any state a crash can leave, the janitor can finish the transaction. */
  lemma JanitorResolves(c: Config, tx: Tx, sys: System, n: nat) returns (run: seq<System>, steps: seq<Step>)
    requires Inv(tx, sys) && sys.actor.Stopped? && sys.record.Some?
    ensures IsPath(c, tx, run, steps) && run[0] == sys
    ensures run[|run| - 1].record.None? && run[|run| - 1].actor.Stopped?
  {
    var decided :| InvAt(tx, sys, decided);
    var taken := Next(c, tx, sys, Janitor);
    StepInv(c, tx, sys, Janitor, decided);
    var rest, more;
    if taken.actor.Committing? {
      rest, more := PassResolves(c, tx, taken, n);
    } else {
      var aborting := Next(c, tx, taken, PutAborted);
      StepInv(c, tx, taken, PutAborted, decided);
      rest, more := PassResolves(c, tx, aborting, n);
      PathCons(c, tx, taken, PutAborted, rest, more);
      rest, more := [taken] + rest, [PutAborted] + more;
    }
    PathCons(c, tx, sys, Janitor, rest, more);
    run, steps := [sys] + rest, [Janitor] + more;
  }

  // --- partitioning a transaction -----------------------------------------------------------------

  /** Where a write of a key goes, or why it bounces. */
  datatype Routing = To(gid: Gid) | NoShard | ShardSplitting

  datatype PartitionResult = Parts(parts: map<Gid, Part>) | Unrouted(why: Routing) | TooBig | EmptyTx

  function RouteOf(shard: Key -> Routing): Key -> Option<Gid> {
    k => if shard(k).To? then Some(shard(k).gid) else None
  }

  /** A group's share of a write list, in the list's order. */
  function Share(route: Key -> Option<Gid>, ws: seq<TxWrite>, gid: Gid): seq<TxWrite>
    decreases |ws|
  {
    if ws == [] then []
    else
      var rest, w := Share(route, ws[..|ws| - 1], gid), ws[|ws| - 1];
      if route(w.key) == Some(gid) then rest + [w] else rest
  }

  ghost predicate IsShare(route: Key -> Option<Gid>, seen: map<Key, nat>, ws: seq<TxWrite>, gid: Gid, part: Part) {
    part.writes == Share(route, ws, gid) && part.seen == map k | k in seen && route(k) == Some(gid) :: seen[k]
  }

  ghost predicate Participates(route: Key -> Option<Gid>, seen: map<Key, nat>, ws: seq<TxWrite>, gid: Gid) {
    (exists k :: k in seen && route(k) == Some(gid)) || (exists i :: 0 <= i < |ws| && route(ws[i].key) == Some(gid))
  }

  /** The parts under construction once `seen` and `ws` have been routed. */
  ghost predicate Routed(route: Key -> Option<Gid>, seen: map<Key, nat>, ws: seq<TxWrite>, parts: map<Gid, Part>) {
    && (forall g {:trigger Participates(route, seen, ws, g)} :: g in parts <==> Participates(route, seen, ws, g))
    && (forall g {:trigger parts[g]} :: g in parts ==> IsShare(route, seen, ws, g, parts[g]))
  }

  function PartOf(parts: map<Gid, Part>, gid: Gid): Part {
    if gid in parts then parts[gid] else Part(map[], [])
  }

  lemma RouteRead(route: Key -> Option<Gid>, seen: map<Key, nat>, k: Key, rev: nat, parts: map<Gid, Part>, gid: Gid)
    requires Routed(route, seen, [], parts) && route(k) == Some(gid) && k !in seen
    ensures Routed(route, seen[k := rev], [], parts[gid := PartOf(parts, gid).(seen := PartOf(parts, gid).seen[k := rev])])
  {
    var more, parts' := seen[k := rev], parts[gid := PartOf(parts, gid).(seen := PartOf(parts, gid).seen[k := rev])];
    forall g ensures Participates(route, more, [], g) <==> Participates(route, seen, [], g) || g == gid {
      assert k in more;
      if g != gid && Participates(route, more, [], g) {
        var l :| l in more && route(l) == Some(g);
        assert l in seen;
      }
      if l :| l in seen && route(l) == Some(g) { assert l in more; }
    }
    forall g | g in parts' ensures IsShare(route, more, [], g, parts'[g]) {
      assert g in parts ==> IsShare(route, seen, [], g, parts[g]);
      if g !in parts {
        assert !Participates(route, seen, [], g);
        assert parts'[g].seen == map l | l in more && route(l) == Some(g) :: more[l];
      }
    }
  }

  lemma WriteParticipates(route: Key -> Option<Gid>, seen: map<Key, nat>, ws: seq<TxWrite>, w: TxWrite, g: Gid)
    ensures Participates(route, seen, ws + [w], g) <==> Participates(route, seen, ws, g) || route(w.key) == Some(g)
  {
    var more := ws + [w];
    assert more[|ws|] == w;
    if i :| 0 <= i < |ws| && route(ws[i].key) == Some(g) { assert more[i] == ws[i]; }
    if i :| 0 <= i < |more| && route(more[i].key) == Some(g) { assert i < |ws| ==> more[i] == ws[i]; }
  }

  lemma WriteShare(route: Key -> Option<Gid>, seen: map<Key, nat>, ws: seq<TxWrite>, w: TxWrite, parts: map<Gid, Part>, g: Gid)
    requires Routed(route, seen, ws, parts) && (g in parts || route(w.key) == Some(g))
    ensures var part := PartOf(parts, g);
            IsShare(route, seen, ws + [w], g, if route(w.key) == Some(g) then part.(writes := part.writes + [w]) else part)
  {
    assert (ws + [w])[..|ws|] == ws && (ws + [w])[|ws|] == w;
    if g in parts {
      assert IsShare(route, seen, ws, g, parts[g]);
    } else {
      assert !Participates(route, seen, ws, g);
      ShareEmpty(route, ws, g);
      assert forall k :: k in seen ==> route(k) != Some(g);
    }
  }

  lemma RouteWrite(route: Key -> Option<Gid>, seen: map<Key, nat>, ws: seq<TxWrite>, w: TxWrite, parts: map<Gid, Part>, gid: Gid)
    requires Routed(route, seen, ws, parts) && route(w.key) == Some(gid)
    ensures Routed(route, seen, ws + [w], parts[gid := PartOf(parts, gid).(writes := PartOf(parts, gid).writes + [w])])
  {
    var more, parts' := ws + [w], parts[gid := PartOf(parts, gid).(writes := PartOf(parts, gid).writes + [w])];
    forall g ensures g in parts' <==> Participates(route, seen, more, g) {
      WriteParticipates(route, seen, ws, w, g);
      assert g in parts <==> Participates(route, seen, ws, g);
    }
    forall g | g in parts' ensures IsShare(route, seen, more, g, parts'[g]) { WriteShare(route, seen, ws, w, parts, g); }
  }

  lemma {:induction false} ShareEmpty(route: Key -> Option<Gid>, ws: seq<TxWrite>, gid: Gid)
    requires forall i :: 0 <= i < |ws| ==> route(ws[i].key) != Some(gid)
    ensures Share(route, ws, gid) == []
    decreases |ws|
  {
    if ws != [] { ShareEmpty(route, ws[..|ws| - 1], gid); }
  }

  /** The first loop: the read set, in no particular order. */
  method RouteReads(shard: Key -> Routing, seen: map<Key, nat>) returns (r: PartitionResult)
    ensures r.Parts? || r.Unrouted?
    ensures r.Parts? ==> Routed(RouteOf(shard), seen, [], r.parts)
    ensures r.Parts? <==> forall k :: k in seen ==> shard(k).To?
    ensures r.Unrouted? ==> exists k :: k in seen && shard(k) == r.why && !r.why.To?
  {
    ghost var route := RouteOf(shard);
    var acc: map<Gid, Part> := map[];
    var todo := seen.Keys;
    assert seen - todo == map[];
    while todo != {}
      invariant todo <= seen.Keys && Routed(route, seen - todo, [], acc)
      invariant forall k :: k in seen && k !in todo ==> shard(k).To?
    {
      var k :| k in todo;
      var to := shard(k);
      if !to.To? { return Unrouted(to); }
      RouteRead(route, seen - todo, k, seen[k], acc, to.gid);
      assert seen - (todo - {k}) == (seen - todo)[k := seen[k]];
      var part := PartOf(acc, to.gid);
      acc := acc[to.gid := part.(seen := part.seen[k := seen[k]])];
      todo := todo - {k};
    }
    assert seen - {} == seen;
    r := Parts(acc);
  }

  predicate Stageable(maxValue: nat, shard: Key -> Routing, w: TxWrite) {
    |w.value| <= maxValue && shard(w.key).To?
  }

  /** The position of the first write that cannot be staged. */
  predicate IsFirstBad(maxValue: nat, shard: Key -> Routing, ws: seq<TxWrite>, i: nat) {
    i < |ws| && !Stageable(maxValue, shard, ws[i]) && forall j :: 0 <= j < i ==> Stageable(maxValue, shard, ws[j])
  }

  lemma FirstBadUnique(maxValue: nat, shard: Key -> Routing, ws: seq<TxWrite>, i: nat)
    requires IsFirstBad(maxValue, shard, ws, i)
    ensures forall j: nat :: IsFirstBad(maxValue, shard, ws, j) ==> j == i
  {
    forall j: nat | IsFirstBad(maxValue, shard, ws, j) ensures j == i {
      assert !(j < i) && !(i < j);
    }
  }

  /**
   Reads and writes split by owning group. Reads are routed first; then the
   first write that cannot be staged decides the error, size before routing.
   */
  method Partition(maxValue: nat, shard: Key -> Routing, seen: map<Key, nat>, writes: seq<TxWrite>) returns (r: PartitionResult)
    ensures r.Parts? ==> Routed(RouteOf(shard), seen, writes, r.parts) && r.parts != map[]
    ensures r.Parts? <==>
              && (seen != map[] || writes != [])
              && (forall k :: k in seen ==> shard(k).To?)
              && (forall i :: 0 <= i < |writes| ==> Stageable(maxValue, shard, writes[i]))
    ensures r.EmptyTx? <==> seen == map[] && writes == []
    ensures r.TooBig? <==>
              && (forall k :: k in seen ==> shard(k).To?)
              && (exists i: nat :: IsFirstBad(maxValue, shard, writes, i) && |writes[i].value| > maxValue)
    ensures r.Unrouted? ==>
              || (exists k :: k in seen && shard(k) == r.why && !r.why.To?)
              || ((forall k :: k in seen ==> shard(k).To?) &&
                  exists i: nat :: IsFirstBad(maxValue, shard, writes, i) && |writes[i].value| <= maxValue && shard(writes[i].key) == r.why)
  {
    ghost var route := RouteOf(shard);
    r := RouteReads(shard, seen);
    if r.Unrouted? { return; }
    var parts: map<Gid, Part> := r.parts;
    for i := 0 to |writes|
      invariant Routed(route, seen, writes[..i], parts)
      invariant forall j :: 0 <= j < i ==> Stageable(maxValue, shard, writes[j])
    {
      var w := writes[i];
      assert !Stageable(maxValue, shard, w) ==> IsFirstBad(maxValue, shard, writes, i);
      if |w.value| > maxValue { return TooBig; }
      var to := shard(w.key);
      if !to.To? {
        FirstBadUnique(maxValue, shard, writes, i);
        return Unrouted(to);
      }
      assert writes[..i + 1] == writes[..i] + [w];
      RouteWrite(route, seen, writes[..i], w, parts, to.gid);
      var part := PartOf(parts, to.gid);
      parts := parts[to.gid := part.(writes := part.writes + [w])];
    }
    assert writes[..|writes|] == writes;
    NoParts(route, seen, writes, parts);
    if parts == map[] { return EmptyTx; }
    r := Parts(parts);
  }

  lemma NoParts(route: Key -> Option<Gid>, seen: map<Key, nat>, ws: seq<TxWrite>, parts: map<Gid, Part>)
    requires Routed(route, seen, ws, parts)
    requires forall k :: k in seen ==> route(k).Some?
    requires forall i :: 0 <= i < |ws| ==> route(ws[i].key).Some?
    ensures parts == map[] <==> seen == map[] && ws == []
  {
    if seen != map[] {
      var k :| k in seen;
      assert Participates(route, seen, ws, route(k).value);
    } else if ws != [] {
      assert Participates(route, seen, ws, route(ws[0].key).value);
    } else {
      forall g ensures g !in parts { assert !Participates(route, seen, ws, g); }
    }
  }

  /** The first write of a key in a list. */
  function FirstWrite(ws: seq<TxWrite>, k: Key): Option<TxWrite>
    decreases |ws|
  {
    if ws == [] then None
    else
      var rest := FirstWrite(ws[..|ws| - 1], k);
      if rest.Some? then rest else if ws[|ws| - 1].key == k then Some(ws[|ws| - 1]) else None
  }

  lemma {:induction false} FirstWriteMentions(ws: seq<TxWrite>, k: Key)
    ensures FirstWrite(ws, k).Some? <==> Mentions(ws, k)
    decreases |ws|
  {
    if ws != [] {
      var init := ws[..|ws| - 1];
      FirstWriteMentions(init, k);
      assert forall i :: 0 <= i < |init| ==> init[i] == ws[i];
      if i :| 0 <= i < |ws| && ws[i].key == k && i < |init| { assert init[i].key == k; }
    }
  }

  lemma {:induction false} FirstWinsLast(ws: seq<TxWrite>, k: Key)
    ensures LastWrite(FirstWins(ws), k) == FirstWrite(ws, k)
    decreases |ws|
  {
    if ws != [] {
      var init, w := ws[..|ws| - 1], ws[|ws| - 1];
      FirstWinsLast(init, k);
      FirstWriteMentions(init, w.key);
      FirstWriteMentions(init, k);
      if !Mentions(init, w.key) {
        var fw := FirstWins(init) + [w];
        assert fw[..|fw| - 1] == FirstWins(init);
      }
    }
  }

  lemma {:induction false} ShareFirst(route: Key -> Option<Gid>, ws: seq<TxWrite>, gid: Gid, k: Key)
    requires route(k) == Some(gid)
    ensures FirstWrite(Share(route, ws, gid), k) == FirstWrite(ws, k)
    decreases |ws|
  {
    if ws != [] {
      var init, w := ws[..|ws| - 1], ws[|ws| - 1];
      ShareFirst(route, init, gid, k);
      if route(w.key) == Some(gid) {
        var share := Share(route, init, gid) + [w];
        assert share[..|share| - 1] == Share(route, init, gid);
      }
    }
  }

  /**
   Splitting a transaction does not change its meaning: what a group's share
   does to a key it owns is what the whole list would have done to it.
   */
  lemma PartitionKeepsMeaning(route: Key -> Option<Gid>, ws: seq<TxWrite>, gid: Gid, k: Key)
    requires route(k) == Some(gid)
    ensures LastWrite(FirstWins(Share(route, ws, gid)), k) == LastWrite(FirstWins(ws), k)
  {
    ShareFirst(route, ws, gid, k);
    FirstWinsLast(ws, k);
    FirstWinsLast(Share(route, ws, gid), k);
  }
}
