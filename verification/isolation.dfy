/**
 How far cross-group transactions are isolated from each other. Prepare checks
 the reads of each group's share and leaves intents on the keys written, but
 nothing on the keys only read: this module says exactly when the reads still
 hold later, which reads are protected, and what a concurrent reader can see.
 */
module Isolation {
  import opened Bytes
  import opened Layout
  import opened Kv
  import opened Mvcc
  import opened TwoPhase
  import History
  import Occ

  // --- one group along a path -------------------------------------------------------------

  /** What a step proposes to group g. */
  function Proposed(tx: Tx, step: Step, g: Gid): Option<History.Logged> {
    match step
    case Other(gid, n, op) => if gid == g then Some(History.Logged(n, op)) else None
    case Prepare(gid, n, delivered, _) =>
      if gid == g && delivered && g in tx.parts then Some(History.Logged(n, PrepareOp(tx, g))) else None
    case Abort(gid, n) => if gid == g then Some(History.Logged(n, TxAbort(tx.id))) else None
    case Commit(gid, n) => if gid == g then Some(History.Logged(n, TxCommit(tx.id))) else None
    case _ => None
  }

  lemma GroupStep(c: Config, tx: Tx, sys: System, step: Step, g: Gid)
    requires Enabled(tx, sys, step) && g in sys.groups
    ensures g in Next(c, tx, sys, step).groups
    ensures var e := Proposed(tx, step, g);
            Next(c, tx, sys, step).groups[g] == if e.Some? then Apply(c, sys.groups[g], e.value.index, e.value.op) else sys.groups[g]
  {
  }

  /** Step i writes k in group g. */
  ghost predicate StepWrites(c: Config, tx: Tx, run: seq<System>, steps: seq<Step>, i: nat, g: Gid, k: Key) {
    && i < |steps| && i < |run| && g in run[i].groups && Proposed(tx, steps[i], g).Some?
    && Occ.WritesKey(c, run[i].groups[g], Proposed(tx, steps[i], g).value.op, k)
  }

  /** The revision the last write of k in g, from moment a to moment b, left. */
  ghost function LastLeft(c: Config, tx: Tx, run: seq<System>, steps: seq<Step>, a: nat, b: nat, g: Gid, k: Key): Option<nat>
    decreases b
  {
    if b <= a then None
    else if StepWrites(c, tx, run, steps, b - 1, g, k) then
      var e := Proposed(tx, steps[b - 1], g).value;
      Some(Occ.RevLeft(c, run[b - 1].groups[g], e.index, e.op, k))
    else LastLeft(c, tx, run, steps, a, b - 1, g, k)
  }

  lemma {:induction false} RevIsLastLeft(c: Config, tx: Tx, run: seq<System>, steps: seq<Step>, a: nat, b: nat, g: Gid, k: Key)
    requires IsPath(c, tx, run, steps) && a <= b < |run| && g in run[a].groups
    ensures g in run[b].groups
    ensures var left := LastLeft(c, tx, run, steps, a, b, g, k);
            RevOf(run[b].groups[g], k) == if left.Some? then left.value else RevOf(run[a].groups[g], k)
    decreases b
  {
    if a < b {
      RevIsLastLeft(c, tx, run, steps, a, b - 1, g, k);
      GroupStep(c, tx, run[b - 1], steps[b - 1], g);
      var e := Proposed(tx, steps[b - 1], g);
      if e.Some? { Occ.EntryRev(c, run[b - 1].groups[g], e.value.index, e.value.op, k); }
    }
  }

  // --- when the reads still hold -------------------------------------------------------------

  /** Step a delivers and acknowledges an accepted prepare to g. */
  ghost predicate PreparedAt(c: Config, tx: Tx, run: seq<System>, steps: seq<Step>, g: Gid, a: nat) {
    && a < |steps| && a < |run| && steps[a].Prepare? && steps[a].gid == g && steps[a].delivered && steps[a].acked
    && g in tx.parts && g in run[a].groups && Rejection(c, run[a].groups[g], PrepareOp(tx, g)).None?
  }

  /** Wherever the coordinator is done preparing, an accepted prepare came before. */
  lemma {:induction false} WasPrepared(c: Config, tx: Tx, run: seq<System>, steps: seq<Step>, i: nat, g: Gid) returns (a: nat)
    requires IsRun(c, tx, run, steps) && i < |run| && g in tx.parts && run[i].actor.Preparing? && g !in run[i].actor.todo
    ensures a < i && PreparedAt(c, tx, run, steps, g, a)
    decreases i
  {
    assert run[0].actor.Start?;
    PreparingStep(c, tx, run, steps, i, g);
    if PreparedAt(c, tx, run, steps, g, i - 1) {
      a := i - 1;
    } else {
      a := WasPrepared(c, tx, run, steps, i - 1, g);
    }
  }

  lemma PreparingStep(c: Config, tx: Tx, run: seq<System>, steps: seq<Step>, i: nat, g: Gid)
    requires IsPath(c, tx, run, steps) && 0 < i < |run| && g in tx.parts && run[i].actor.Preparing? && g !in run[i].actor.todo
    ensures PreparedAt(c, tx, run, steps, g, i - 1) || (run[i - 1].actor.Preparing? && g !in run[i - 1].actor.todo) || run[i - 1].actor.Start?
    ensures run[i - 1].actor.Start? ==> run[i].actor == Preparing(tx.parts.Keys)
  {
    assert Enabled(tx, run[i - 1], steps[i - 1]) && run[i] == Next(c, tx, run[i - 1], steps[i - 1]);
  }

  /** Every read of the transaction has the revision it saw. */
  ghost predicate ReadsHold(tx: Tx, sys: System) {
    forall g, k :: g in tx.parts && k in tx.parts[g].seen ==> g in sys.groups && RevOf(sys.groups[g], k) == tx.parts[g].seen[k]
  }

  lemma PreparedReads(c: Config, tx: Tx, run: seq<System>, steps: seq<Step>, g: Gid, a: nat, k: Key)
    requires PreparedAt(c, tx, run, steps, g, a) && k in tx.parts[g].seen
    ensures RevOf(run[a].groups[g], k) == tx.parts[g].seen[k]
  {
    assert ReadsValid(run[a].groups[g], tx.parts[g].seen);
  }

  /**
   Exactly when the reads hold at a moment after the prepares, the commit of
   any group included: the last write of each read key since its group
   prepared, if there is one, left exactly the revision that was read.
   */
  lemma ReadsHoldIff(c: Config, tx: Tx, run: seq<System>, steps: seq<Step>, at: map<Gid, nat>, b: nat)
    requires IsRun(c, tx, run, steps) && b < |run|
    requires forall g :: g in tx.parts ==> g in at && at[g] <= b && PreparedAt(c, tx, run, steps, g, at[g])
    ensures ReadsHold(tx, run[b]) <==>
            forall g, k :: g in tx.parts && k in tx.parts[g].seen ==>
              var left := LastLeft(c, tx, run, steps, at[g], b, g, k); left.Some? ==> left.value == tx.parts[g].seen[k]
  {
    forall g, k | g in tx.parts && k in tx.parts[g].seen
      ensures g in run[b].groups
      ensures RevOf(run[b].groups[g], k) == tx.parts[g].seen[k] <==>
              var left := LastLeft(c, tx, run, steps, at[g], b, g, k); left.Some? ==> left.value == tx.parts[g].seen[k]
    {
      PreparedReads(c, tx, run, steps, g, at[g], k);
      RevIsLastLeft(c, tx, run, steps, at[g], b, g, k);
    }
  }

  // --- reads that are protected ---------------------------------------------------------------

  /** Commands that look at intents before they write, or write nothing. */
  predicate Respects(op: Op) {
    !op.Set? && !op.Delete? && !op.DeleteRange? && !op.SplitCleanup? && !op.CopyIn?
  }

  /** Every key of an intent's write list carries an intent of the same transaction. */
  ghost predicate Whole(s: State) {
    forall k, i :: k in s.intents && 0 <= i < |s.intents[k].writes| ==>
      var l := s.intents[k].writes[i].key; l in s.intents && s.intents[l].txid == s.intents[k].txid
  }

  lemma WholeStep(c: Config, s: State, n: nat, op: Op)
    requires Whole(s)
    ensures Whole(Apply(c, s, n, op))
  {
    ApplyIntents(c, s, n, op);
    var t := Apply(c, s, n, op);
    if op.TxPrepare? && Rejection(c, s, op).None? { BadWriteNone(c, s, op.txid, op.writes); }
    forall k, i | k in t.intents && 0 <= i < |t.intents[k].writes|
      ensures var l := t.intents[k].writes[i].key; l in t.intents && t.intents[l].txid == t.intents[k].txid
    {
      if op.TxPrepare? && Rejection(c, s, op).None? && k in WriteKeys(op.writes) { assert op.writes[i].key in WriteKeys(op.writes); }
    }
  }

  lemma {:induction false} UnheldWrites(c: Config, s: State, ws: seq<TxWrite>, k: Key)
    requires BadWrite(c, s, None, ws).None? && k in s.intents
    ensures !Mentions(ws, k)
  {
    if ws != [] {
      UnheldWrites(c, s, ws[1..], k);
      forall i | 0 <= i < |ws| ensures ws[i].key != k {
        if i > 0 { assert ws[1..][i - 1] == ws[i]; }
      }
    }
  }

  lemma {:induction false} IntentWritesOwn(s: State, keys: seq<Key>, txid: Key, k: Key)
    requires Whole(s) && forall l :: l in keys ==> l in s.intents && s.intents[l].txid == txid
    requires Mentions(IntentWrites(s.intents, keys), k)
    ensures k in s.intents && s.intents[k].txid == txid
    decreases |keys|
  {
    var init, last := keys[..|keys| - 1], keys[|keys| - 1];
    assert last in keys && forall l :: l in init ==> l in keys;
    var rest, own := IntentWrites(s.intents, init), s.intents[last].writes;
    var all := IntentWrites(s.intents, keys);
    assert all == rest + own;
    var i :| 0 <= i < |all| && all[i].key == k;
    if i < |rest| {
      assert rest[i].key == k;
      IntentWritesOwn(s, init, txid, k);
    } else {
      assert own[i - |rest|].key == k;
    }
  }

  /** No respectful command of another transaction writes a key under an intent. */
  lemma HeldUnwritten(c: Config, s: State, op: Op, txid: Key, k: Key)
    requires Whole(s) && k in s.intents && s.intents[k].txid == txid && !Names(op, txid) && Respects(op)
    ensures !Occ.WritesKey(c, s, op, k)
  {
    var ws := Performed(c, s, op);
    if LastWrite(ws, k).Some? {
      if op.TxApply? {
        UnheldWrites(c, s, op.writes, k);
        Occ.LastWriteMentions(ws, k);
      } else {
        var all := IntentWrites(s.intents, Sorted(TxKeys(s, op.txid)));
        History.FirstWinsOnce(all, k);
        IntentWritesOwn(s, Sorted(TxKeys(s, op.txid)), op.txid, k);
      }
    }
  }

  /** From moment a to moment b, others respect intents in g and the transaction is not resolved there. */
  ghost predicate Undisturbed(tx: Tx, steps: seq<Step>, a: nat, b: nat, g: Gid)
    requires b <= |steps|
  {
    forall j :: a <= j < b && Proposed(tx, steps[j], g).Some? ==>
      Respects(Proposed(tx, steps[j], g).value.op) && !steps[j].Commit? && !steps[j].Abort?
  }

  lemma HeldStep(c: Config, tx: Tx, sys: System, step: Step, g: Gid, k: Key)
    requires Enabled(tx, sys, step) && g in sys.groups && g in tx.parts && Whole(sys.groups[g])
    requires k in sys.groups[g].intents && sys.groups[g].intents[k].txid == tx.id
    requires var e := Proposed(tx, step, g); e.Some? ==> Respects(e.value.op) && !step.Commit? && !step.Abort?
    ensures var s, t := sys.groups[g], Next(c, tx, sys, step).groups[g];
            Whole(t) && k in t.intents && t.intents[k].txid == tx.id && Lookup(t.latest, k) == Lookup(s.latest, k)
  {
    var s, e := sys.groups[g], Proposed(tx, step, g);
    GroupStep(c, tx, sys, step, g);
    if e.Some? {
      WholeStep(c, s, e.value.index, e.value.op);
      Occ.EntryRev(c, s, e.value.index, e.value.op, k);
      if step.Other? {
        HeldUnwritten(c, s, e.value.op, tx.id, k);
        assert k in TxKeys(s, tx.id);
        OthersKeepIntents(c, s, e.value.index, e.value.op, tx.id);
      } else {
        ApplyIntents(c, s, e.value.index, e.value.op);
      }
    }
  }

  lemma {:induction false} WholeAlong(c: Config, tx: Tx, run: seq<System>, steps: seq<Step>, b: nat, g: Gid)
    requires IsPath(c, tx, run, steps) && b < |run| && g in run[0].groups && Whole(run[0].groups[g])
    ensures g in run[b].groups && Whole(run[b].groups[g])
    decreases b
  {
    if b > 0 {
      WholeAlong(c, tx, run, steps, b - 1, g);
      GroupStep(c, tx, run[b - 1], steps[b - 1], g);
      var e := Proposed(tx, steps[b - 1], g);
      if e.Some? { WholeStep(c, run[b - 1].groups[g], e.value.index, e.value.op); }
    }
  }

  lemma PrepareHeld(c: Config, tx: Tx, run: seq<System>, steps: seq<Step>, g: Gid, a: nat, k: Key)
    requires IsPath(c, tx, run, steps) && PreparedAt(c, tx, run, steps, g, a) && k in WriteKeys(tx.parts[g].writes)
    ensures g in run[a + 1].groups
    ensures var s, t := run[a].groups[g], run[a + 1].groups[g];
            k in t.intents && t.intents[k].txid == tx.id && Lookup(t.latest, k) == Lookup(s.latest, k)
  {
    var s, n, op := run[a].groups[g], steps[a].n, PrepareOp(tx, g);
    GroupStep(c, tx, run[a], steps[a], g);
    ApplyIntents(c, s, n, op);
    Occ.EntryRev(c, s, n, op, k);
  }

  lemma {:induction false} HeldAlong(c: Config, tx: Tx, run: seq<System>, steps: seq<Step>, g: Gid, a: nat, b: nat, k: Key)
    requires IsPath(c, tx, run, steps) && PreparedAt(c, tx, run, steps, g, a) && a < b < |run| && k in WriteKeys(tx.parts[g].writes)
    requires g in run[0].groups && Whole(run[0].groups[g]) && Undisturbed(tx, steps, a, b, g)
    ensures g in run[b].groups && k in run[b].groups[g].intents && run[b].groups[g].intents[k].txid == tx.id
    ensures Lookup(run[b].groups[g].latest, k) == Lookup(run[a].groups[g].latest, k)
    decreases b
  {
    PrepareHeld(c, tx, run, steps, g, a, k);
    if a + 1 < b {
      HeldAlong(c, tx, run, steps, g, a, b - 1, k);
      WholeAlong(c, tx, run, steps, b - 1, g);
      HeldStep(c, tx, run[b - 1], steps[b - 1], g, k);
      GroupStep(c, tx, run[b - 1], steps[b - 1], g);
    }
  }

  /**
   What intents protect: a key the transaction both read and writes keeps the
   revision it read until its group resolves the transaction, as long as
   everyone else in that group writes through transactions.
   */
  lemma ReadModifyWriteHolds(c: Config, tx: Tx, run: seq<System>, steps: seq<Step>, g: Gid, a: nat, b: nat, k: Key)
    requires IsPath(c, tx, run, steps) && PreparedAt(c, tx, run, steps, g, a) && a < b < |run|
    requires k in tx.parts[g].seen && k in WriteKeys(tx.parts[g].writes)
    requires g in run[0].groups && Whole(run[0].groups[g]) && Undisturbed(tx, steps, a, b, g)
    ensures g in run[b].groups && RevOf(run[b].groups[g], k) == tx.parts[g].seen[k]
  {
    PreparedReads(c, tx, run, steps, g, a, k);
    HeldAlong(c, tx, run, steps, g, a, b, k);
  }

  // --- what a reader can see of a commit ---------------------------------------------------------

  /** One group has performed its writes and another has yet to. */
  ghost predicate HalfVisible(tx: Tx, sys: System) {
    exists g, h :: g in tx.parts && h in tx.parts && g in sys.wrote && h in sys.wrote &&
      sys.wrote[g] != [] && sys.wrote[h] == [] && tx.parts[h].writes != []
  }

  lemma {:induction false} FirstWinsSome(ws: seq<TxWrite>)
    ensures FirstWins(ws) == [] <==> ws == []
    decreases |ws|
  {
    if ws != [] {
      FirstWinsSome(ws[..|ws| - 1]);
      var rest, w := ws[..|ws| - 1], ws[|ws| - 1];
      if exists i :: 0 <= i < |rest| && rest[i].key == w.key { assert rest != []; }
    }
  }

  /** Both wrote by moment i; each step lets one group write: at some moment only one had. */
  lemma {:induction false} OneAtATime(c: Config, tx: Tx, run: seq<System>, steps: seq<Step>, i: nat, g: Gid, h: Gid) returns (j: nat)
    requires IsRun(c, tx, run, steps) && i < |run| && g in tx.parts && h in tx.parts && g != h
    requires g in run[i].wrote && h in run[i].wrote && run[i].wrote[g] != [] && run[i].wrote[h] != []
    requires tx.parts[g].writes != [] && tx.parts[h].writes != []
    ensures j <= i && HalfVisible(tx, run[j])
    decreases i
  {
    assert Enabled(tx, run[i - 1], steps[i - 1]) && run[i] == Next(c, tx, run[i - 1], steps[i - 1]);
    RunInv(c, tx, run, steps, i - 1);
    assert GroupOk(tx, run[i - 1], DecidedIn(steps[..i - 1]), g) && GroupOk(tx, run[i - 1], DecidedIn(steps[..i - 1]), h);
    if run[i - 1].wrote[g] != [] && run[i - 1].wrote[h] != [] {
      j := OneAtATime(c, tx, run, steps, i - 1, g, h);
    } else {
      j := i - 1;
    }
  }

  lemma HalfHasTwo(c: Config, tx: Tx, run: seq<System>, steps: seq<Step>, i: nat)
    requires IsRun(c, tx, run, steps) && i < |run| && HalfVisible(tx, run[i])
    ensures exists g, h :: g in tx.parts && h in tx.parts && g != h && tx.parts[g].writes != [] && tx.parts[h].writes != []
  {
    var g, h :| g in tx.parts && h in tx.parts && g in run[i].wrote && h in run[i].wrote &&
      run[i].wrote[g] != [] && run[i].wrote[h] == [] && tx.parts[h].writes != [];
    NoHalfCommit(c, tx, run, steps, i, g, h);
    FirstWinsSome(tx.parts[g].writes);
  }

  lemma TwoAreHalf(c: Config, tx: Tx, run: seq<System>, steps: seq<Step>, g: Gid, h: Gid) returns (j: nat)
    requires IsRun(c, tx, run, steps) && run[|run| - 1].actor.Stopped? && run[|run| - 1].record.None?
    requires exists i :: 0 <= i < |steps| && steps[i].Decide? && steps[i].written
    requires g in tx.parts && h in tx.parts && g != h && tx.parts[g].writes != [] && tx.parts[h].writes != []
    ensures j < |run| && HalfVisible(tx, run[j])
  {
    AllOrNothing(c, tx, run, steps, |run| - 1);
    FirstWinsSome(tx.parts[g].writes);
    FirstWinsSome(tx.parts[h].writes);
    j := OneAtATime(c, tx, run, steps, |run| - 1, g, h);
  }

  /**
   A committed transaction can be seen in part, at some moment of its run, if
   and only if it writes in more than one group.
   */
  lemma HalfVisibleIff(c: Config, tx: Tx, run: seq<System>, steps: seq<Step>)
    requires IsRun(c, tx, run, steps) && run[|run| - 1].actor.Stopped? && run[|run| - 1].record.None?
    requires exists j :: 0 <= j < |steps| && steps[j].Decide? && steps[j].written
    ensures (exists i :: 0 <= i < |run| && HalfVisible(tx, run[i])) <==>
            exists g, h :: g in tx.parts && h in tx.parts && g != h && tx.parts[g].writes != [] && tx.parts[h].writes != []
  {
    if i :| 0 <= i < |run| && HalfVisible(tx, run[i]) { HalfHasTwo(c, tx, run, steps, i); }
    if g, h :| g in tx.parts && h in tx.parts && g != h && tx.parts[g].writes != [] && tx.parts[h].writes != [] {
      var j := TwoAreHalf(c, tx, run, steps, g, h);
    }
  }

  // --- two transactions that each read what the other writes ----------------------------------------

  function PutOne(k: Key): TxWrite {
    TxWrite(k, [1], false, false)
  }

  /**
   One of the two. It reads `mine` and writes `side` in group g, and writes
   `yours` in group h; its rival reads `yours` and writes `also` in h, and
   writes `mine` in g.
   */
  datatype Cast = Cast(id: Key, rival: Key, g: Gid, mine: Key, side: Key, h: Gid, yours: Key, also: Key) {
    predicate Valid() {
      && g != h && id != rival
      && mine != side && mine != yours && mine != also && side != yours && side != also && yours != also
    }

    function Crossing(): Tx {
      Tx(id, map[g := Part(map[mine := 1], [PutOne(side)]), h := Part(map[], [PutOne(yours)])])
    }

    function Mirrored(): Cast {
      Cast(rival, id, h, yours, also, g, mine, side)
    }

    function At(s: State, t: State, record: Option<Decision>, actor: Actor): System {
      System(map[g := s, h := t], record, actor, map[g := [], h := []])
    }
  }

  function ReadPrepare(id: Key, k: Key, side: Key): Op {
    TxPrepare(id, map[k := 1], [PutOne(side)])
  }

  function WritePrepare(id: Key, k: Key): Op {
    TxPrepare(id, map[], [PutOne(k)])
  }

  /** The states of one group: one key, then its reader prepares, then its writer. */
  function Fresh(k: Key): State {
    State(map[k := Record(1, [0], false)], map[], map[], 1, 0, None)
  }

  function ReadHeld(k: Key, side: Key, reader: Key): State {
    Fresh(k).(intents := map[side := Intent(reader, [PutOne(side)])])
  }

  function BothHeld(k: Key, side: Key, reader: Key, writer: Key): State {
    Fresh(k).(intents := map[side := Intent(reader, [PutOne(side)])][k := Intent(writer, [PutOne(k)])])
  }

  lemma Prepares(c: Config, s: State, n: nat, txid: Key, seen: map<Key, nat>, k: Key)
    requires c == DEFAULT_CONFIG && n <= 4096 && s.freeze.None? && ReadsValid(s, seen) && k !in s.intents
    ensures var op := TxPrepare(txid, seen, [PutOne(k)]);
            Rejection(c, s, op).None? && Apply(c, s, n, op) == s.(intents := s.intents[k := Intent(txid, [PutOne(k)])])
  {
    var op := TxPrepare(txid, seen, [PutOne(k)]);
    assert [PutOne(k)][1..] == [];
    assert BadWrite(c, s, Some(txid), [PutOne(k)]).None?;
    assert WriteKeys([PutOne(k)]) == {k} by { assert [PutOne(k)][0].key == k; }
    assert ApplyOp(c, s, n, op).intents == s.intents[k := Intent(txid, [PutOne(k)])];
  }

  lemma ReaderPrepares(c: Config, k: Key, side: Key, reader: Key)
    requires c == DEFAULT_CONFIG
    ensures Rejection(c, Fresh(k), ReadPrepare(reader, k, side)).None? && Apply(c, Fresh(k), 2, ReadPrepare(reader, k, side)) == ReadHeld(k, side, reader)
  {
    Prepares(c, Fresh(k), 2, reader, map[k := 1], side);
  }

  lemma WriterPrepares(c: Config, k: Key, side: Key, reader: Key, writer: Key)
    requires c == DEFAULT_CONFIG && k != side
    ensures var s := ReadHeld(k, side, reader);
            Rejection(c, s, WritePrepare(writer, k)).None? && Apply(c, s, 3, WritePrepare(writer, k)) == BothHeld(k, side, reader, writer)
  {
    Prepares(c, ReadHeld(k, side, reader), 3, writer, map[], k);
  }

  // The steps of one of the two, whatever states its groups are in.

  lemma RivalWrites(c: Config, x: Cast, s: State, s': State, t: State)
    requires x.Valid() && Apply(c, s, 3, WritePrepare(x.rival, x.mine)) == s'
    ensures var sys, step := x.At(s, t, Some(Pending), Preparing({x.h})), Other(x.g, 3, WritePrepare(x.rival, x.mine));
            Enabled(x.Crossing(), sys, step) && x.At(s', t, Some(Pending), Preparing({x.h})) == Next(c, x.Crossing(), sys, step)
  {
    assert map[x.g := s, x.h := t][x.g := s'] == map[x.g := s', x.h := t];
  }

  lemma RivalReads(c: Config, x: Cast, s: State, t: State, t': State)
    requires x.Valid() && Apply(c, t, 2, ReadPrepare(x.rival, x.yours, x.also)) == t'
    ensures var sys, step := x.At(s, t, Some(Pending), Preparing({x.h})), Other(x.h, 2, ReadPrepare(x.rival, x.yours, x.also));
            Enabled(x.Crossing(), sys, step) && x.At(s, t', Some(Pending), Preparing({x.h})) == Next(c, x.Crossing(), sys, step)
  {
    assert map[x.g := s, x.h := t][x.h := t'] == map[x.g := s, x.h := t'];
  }

  lemma PreparesMine(c: Config, x: Cast, s: State, s': State, t: State, n: nat)
    requires x.Valid() && Apply(c, s, n, ReadPrepare(x.id, x.mine, x.side)) == s' && Rejection(c, s, ReadPrepare(x.id, x.mine, x.side)).None?
    ensures var sys, step := x.At(s, t, Some(Pending), Preparing({x.g, x.h})), Prepare(x.g, n, true, true);
            Enabled(x.Crossing(), sys, step) && x.At(s', t, Some(Pending), Preparing({x.h})) == Next(c, x.Crossing(), sys, step)
  {
    assert map[x.g := s, x.h := t][x.g := s'] == map[x.g := s', x.h := t] && {x.g, x.h} - {x.g} == {x.h};
  }

  lemma PreparesYours(c: Config, x: Cast, s: State, t: State, t': State, n: nat)
    requires x.Valid() && Apply(c, t, n, WritePrepare(x.id, x.yours)) == t' && Rejection(c, t, WritePrepare(x.id, x.yours)).None?
    ensures var sys, step := x.At(s, t, Some(Pending), Preparing({x.h})), Prepare(x.h, n, true, true);
            Enabled(x.Crossing(), sys, step) && x.At(s, t', Some(Pending), Preparing({})) == Next(c, x.Crossing(), sys, step)
  {
    assert map[x.g := s, x.h := t][x.h := t'] == map[x.g := s, x.h := t'] && {x.h} - {x.h} == {};
  }

  /** Its last two prepares and the decision. */
  lemma CrossingDecides(c: Config, x: Cast, s1: State, s2: State, t1: State, t2: State) returns (run: seq<System>, steps: seq<Step>)
    requires x.Valid() && Apply(c, s1, 3, WritePrepare(x.rival, x.mine)) == s2
    requires Apply(c, t1, 3, WritePrepare(x.id, x.yours)) == t2 && Rejection(c, t1, WritePrepare(x.id, x.yours)).None?
    ensures IsPath(c, x.Crossing(), run, steps) && run[0] == x.At(s1, t1, Some(Pending), Preparing({x.h}))
    ensures steps == [Other(x.g, 3, WritePrepare(x.rival, x.mine)), Prepare(x.h, 3, true, true), Decide(true, true)]
    ensures run[|run| - 1] == x.At(s2, t2, Some(Committed), Committing({x.g, x.h}))
  {
    var tx := x.Crossing();
    var ready := x.At(s2, t2, Some(Pending), Preparing({}));
    assert tx.parts.Keys == {x.g, x.h};
    run, steps := [Next(c, tx, ready, Decide(true, true))], [];
    PathCons(c, tx, ready, Decide(true, true), run, steps);
    run, steps := [ready] + run, [Decide(true, true)] + steps;
    PreparesYours(c, x, s2, t1, t2, 3);
    PathCons(c, tx, x.At(s2, t1, Some(Pending), Preparing({x.h})), Prepare(x.h, 3, true, true), run, steps);
    run, steps := [x.At(s2, t1, Some(Pending), Preparing({x.h}))] + run, [Prepare(x.h, 3, true, true)] + steps;
    RivalWrites(c, x, s1, s2, t1);
    PathCons(c, tx, x.At(s1, t1, Some(Pending), Preparing({x.h})), Other(x.g, 3, WritePrepare(x.rival, x.mine)), run, steps);
    run, steps := [x.At(s1, t1, Some(Pending), Preparing({x.h}))] + run, [Other(x.g, 3, WritePrepare(x.rival, x.mine))] + steps;
  }

  function CrossingSteps(x: Cast): seq<Step> {
    [PutPending, Prepare(x.g, 2, true, true), Other(x.h, 2, ReadPrepare(x.rival, x.yours, x.also)),
     Other(x.g, 3, WritePrepare(x.rival, x.mine)), Prepare(x.h, 3, true, true), Decide(true, true)]
  }

  lemma CrossingStarts(c: Config, x: Cast, s0: State, s1: State, t0: State, t1: State, rest: seq<System>, more: seq<Step>) returns (run: seq<System>)
    requires x.Valid() && Apply(c, s0, 2, ReadPrepare(x.id, x.mine, x.side)) == s1 && Rejection(c, s0, ReadPrepare(x.id, x.mine, x.side)).None?
    requires Apply(c, t0, 2, ReadPrepare(x.rival, x.yours, x.also)) == t1
    requires IsPath(c, x.Crossing(), rest, more) && rest[0] == x.At(s1, t1, Some(Pending), Preparing({x.h}))
    ensures IsPath(c, x.Crossing(), run, [Prepare(x.g, 2, true, true), Other(x.h, 2, ReadPrepare(x.rival, x.yours, x.also))] + more)
    ensures run[0] == x.At(s0, t0, Some(Pending), Preparing({x.g, x.h})) && run[|run| - 1] == rest[|rest| - 1]
  {
    var tx := x.Crossing();
    var read, pending := x.At(s1, t0, Some(Pending), Preparing({x.h})), x.At(s0, t0, Some(Pending), Preparing({x.g, x.h}));
    var prepare, other := Prepare(x.g, 2, true, true), Other(x.h, 2, ReadPrepare(x.rival, x.yours, x.also));
    RivalReads(c, x, s1, t0, t1);
    PathCons(c, tx, read, other, rest, more);
    PreparesMine(c, x, s0, s1, t0, 2);
    PathCons(c, tx, pending, prepare, [read] + rest, [other] + more);
    run := [pending] + ([read] + rest);
    assert [prepare] + ([other] + more) == [prepare, other] + more;
  }

  ghost function Opening(x: Cast): System {
    x.At(Fresh(x.mine), Fresh(x.yours), None, Start)
  }

  ghost function Decided(x: Cast): System {
    x.At(BothHeld(x.mine, x.side, x.id, x.rival), BothHeld(x.yours, x.also, x.rival, x.id), Some(Committed), Committing({x.g, x.h}))
  }

  lemma Opens(c: Config, x: Cast, s: State, t: State, rest: seq<System>, more: seq<Step>) returns (run: seq<System>)
    requires x.Valid() && IsPath(c, x.Crossing(), rest, more) && rest[0] == x.At(s, t, Some(Pending), Preparing({x.g, x.h}))
    ensures IsPath(c, x.Crossing(), run, [PutPending] + more) && run[0] == x.At(s, t, None, Start) && run[|run| - 1] == rest[|rest| - 1]
  {
    assert x.Crossing().parts.Keys == {x.g, x.h};
    PathCons(c, x.Crossing(), x.At(s, t, None, Start), PutPending, rest, more);
    run := [x.At(s, t, None, Start)] + rest;
  }

  /** What the groups of one of the two make of the four prepares. */
  ghost predicate Plays(c: Config, x: Cast, s0: State, s1: State, s2: State, t0: State, t1: State, t2: State) {
    && Rejection(c, s0, ReadPrepare(x.id, x.mine, x.side)).None? && Apply(c, s0, 2, ReadPrepare(x.id, x.mine, x.side)) == s1
    && Apply(c, t0, 2, ReadPrepare(x.rival, x.yours, x.also)) == t1
    && Apply(c, s1, 3, WritePrepare(x.rival, x.mine)) == s2
    && Rejection(c, t1, WritePrepare(x.id, x.yours)).None? && Apply(c, t1, 3, WritePrepare(x.id, x.yours)) == t2
  }

  lemma CrossingPrepares(c: Config, x: Cast, s0: State, s1: State, s2: State, t0: State, t1: State, t2: State) returns (run: seq<System>)
    requires x.Valid() && Plays(c, x, s0, s1, s2, t0, t1, t2)
    ensures IsPath(c, x.Crossing(), run, CrossingSteps(x)[1..]) && run[0] == x.At(s0, t0, Some(Pending), Preparing({x.g, x.h}))
    ensures run[|run| - 1] == x.At(s2, t2, Some(Committed), Committing({x.g, x.h}))
  {
    var rest, more := CrossingDecides(c, x, s1, s2, t1, t2);
    run := CrossingStarts(c, x, s0, s1, t0, t1, rest, more);
    assert [Prepare(x.g, 2, true, true), Other(x.h, 2, ReadPrepare(x.rival, x.yours, x.also))] + more == CrossingSteps(x)[1..];
  }

  lemma FreshPlays(c: Config, x: Cast)
    requires c == DEFAULT_CONFIG && x.Valid()
    ensures Plays(c, x, Fresh(x.mine), ReadHeld(x.mine, x.side, x.id), BothHeld(x.mine, x.side, x.id, x.rival),
                  Fresh(x.yours), ReadHeld(x.yours, x.also, x.rival), BothHeld(x.yours, x.also, x.rival, x.id))
  {
    ReaderPrepares(c, x.mine, x.side, x.id);
    ReaderPrepares(c, x.yours, x.also, x.rival);
    WriterPrepares(c, x.mine, x.side, x.id, x.rival);
    WriterPrepares(c, x.yours, x.also, x.rival, x.id);
  }

  lemma CrossingRun(c: Config, x: Cast) returns (run: seq<System>)
    requires c == DEFAULT_CONFIG && x.Valid()
    ensures IsPath(c, x.Crossing(), run, CrossingSteps(x)) && run[0] == Opening(x) && run[|run| - 1] == Decided(x)
  {
    FreshPlays(c, x);
    var rest := CrossingPrepares(c, x, Fresh(x.mine), ReadHeld(x.mine, x.side, x.id), BothHeld(x.mine, x.side, x.id, x.rival),
                                 Fresh(x.yours), ReadHeld(x.yours, x.also, x.rival), BothHeld(x.yours, x.also, x.rival, x.id));
    run := Opens(c, x, Fresh(x.mine), Fresh(x.yours), rest, CrossingSteps(x)[1..]);
    assert [PutPending] + CrossingSteps(x)[1..] == CrossingSteps(x);
  }

  lemma OpeningIsInitial(x: Cast)
    requires x.Valid()
    ensures Initial(x.Crossing(), Opening(x))
  {
  }

  /** Everything a path proposes to one group. */
  function GroupLog(tx: Tx, steps: seq<Step>, g: Gid): History.Log {
    if steps == [] then []
    else
      var e, rest := Proposed(tx, steps[0], g), GroupLog(tx, steps[1..], g);
      if e.Some? then [e.value] + rest else rest
  }

  function SharedLog(k: Key, side: Key, reader: Key, writer: Key): History.Log {
    [History.Logged(2, ReadPrepare(reader, k, side)), History.Logged(3, WritePrepare(writer, k))]
  }

  lemma CrossingLogs(x: Cast)
    requires x.Valid()
    ensures GroupLog(x.Crossing(), CrossingSteps(x), x.g) == SharedLog(x.mine, x.side, x.id, x.rival)
    ensures GroupLog(x.Crossing(), CrossingSteps(x), x.h) == SharedLog(x.yours, x.also, x.rival, x.id)
  {
    var tx, st := x.Crossing(), CrossingSteps(x);
    var last := [Other(x.g, 3, WritePrepare(x.rival, x.mine)), Prepare(x.h, 3, true, true), Decide(true, true)];
    assert last[1..][1..][1..] == [] && st[1..][1..][1..] == last;
    assert GroupLog(tx, last[1..][1..], x.g) == GroupLog(tx, last[1..][1..], x.h) == [];
    assert GroupLog(tx, last[1..], x.g) == [] && GroupLog(tx, last[1..], x.h) == [History.Logged(3, WritePrepare(x.id, x.yours))];
    assert GroupLog(tx, last, x.g) == [History.Logged(3, WritePrepare(x.rival, x.mine))];
    assert GroupLog(tx, st[1..][1..], x.h) == SharedLog(x.yours, x.also, x.rival, x.id);
    assert GroupLog(tx, st[1..], x.g) == SharedLog(x.mine, x.side, x.id, x.rival);
  }

  /** Whoever commits first in a group makes reads of what it wrote stale: they would now be refused. */
  lemma CommitMakesStale(c: Config, k: Key, side: Key, reader: Key, writer: Key, n: nat, late: Key, other: Key)
    requires reader != writer && k != side && 1 < n
    ensures var t := Apply(c, BothHeld(k, side, reader, writer), n, TxCommit(writer));
            RevOf(t, k) == n && Rejection(c, t, ReadPrepare(late, k, other)) == Some(Conflict)
  {
    CommitRev(c, BothHeld(k, side, reader, writer), n, writer, k);
    CommitUnfrozen(c, BothHeld(k, side, reader, writer), n, writer);
    LateRefused(c, Apply(c, BothHeld(k, side, reader, writer), n, TxCommit(writer)), k, late, other);
  }

  lemma CommitRev(c: Config, s: State, n: nat, txid: Key, k: Key)
    requires k in s.intents && s.intents[k] == Intent(txid, [PutOne(k)])
    requires forall l :: l in s.intents && l != k ==> s.intents[l].txid != txid
    ensures RevOf(Apply(c, s, n, TxCommit(txid)), k) == n
  {
    assert WriteKeys([PutOne(k)]) == {k} by { assert [PutOne(k)][0].key == k; }
    CommitMaterializes(c, s, n, txid, [PutOne(k)], k);
    assert [PutOne(k)][..0] == [] && FirstWins([PutOne(k)]) == [PutOne(k)];
  }

  lemma LateRefused(c: Config, t: State, k: Key, late: Key, other: Key)
    requires t.freeze.None? && RevOf(t, k) != 1
    ensures Rejection(c, t, ReadPrepare(late, k, other)) == Some(Conflict)
  {
    assert k in map[k := 1];
  }

  lemma CommitUnfrozen(c: Config, s: State, n: nat, txid: Key)
    ensures Apply(c, s, n, TxCommit(txid)).freeze == s.freeze
  {
    StageFrame(s, n, WritesOf(s, TxCommit(txid)));
  }

  /** One of the two can run until it has decided to commit. */
  ghost predicate CanDecide(c: Config, x: Cast) {
    exists run :: IsRun(c, x.Crossing(), run, CrossingSteps(x)) && run[0] == Opening(x) && run[|run| - 1] == Decided(x)
  }

  /**
   Two transactions that both commit although no order of the two explains
   what they read: either of them, the other's commands going on around it,
   prepares everywhere and decides to commit.
   */
  lemma WriteSkew(c: Config, x: Cast)
    requires c == DEFAULT_CONFIG && x.Valid()
    ensures x.Mirrored().Valid() && CanDecide(c, x)
  {
    var run := CrossingRun(c, x);
    OpeningIsInitial(x);
    assert IsRun(c, x.Crossing(), run, CrossingSteps(x));
  }

  /** The two runs are views of one run: the same groups with the same logs. */
  lemma SkewIsOneRun(x: Cast)
    requires x.Valid()
    ensures var y := x.Mirrored();
            && Opening(x).groups == Opening(y).groups && Decided(x).groups == Decided(y).groups
            && GroupLog(x.Crossing(), CrossingSteps(x), x.g) == GroupLog(y.Crossing(), CrossingSteps(y), x.g)
            && GroupLog(x.Crossing(), CrossingSteps(x), x.h) == GroupLog(y.Crossing(), CrossingSteps(y), x.h)
  {
    CrossingLogs(x);
    CrossingLogs(x.Mirrored());
  }
}
