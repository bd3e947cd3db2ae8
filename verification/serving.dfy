/**
 What a group answers, command by command: an answered read is a read of the
 past, a refused one lies below the horizon, and every refusal of a write has
 exactly the reason it names.
 */
module Serving {
  import opened Bytes
  import opened Layout
  import opened Kv
  import opened Mvcc
  import opened History
  import opened Scan
  import opened Machine

  // --- the horizon ------------------------------------------------------------------------

  /** The entry at this index collects garbage. */
  predicate Collects(c: Config, n: nat) {
    c.gcEvery > 0 && n % c.gcEvery == 0 && n > c.historyRevisions
  }

  lemma EntryHorizon(c: Config, s: State, n: nat, op: Op)
    ensures Kv.Apply(c, s, n, op).cutoff ==
            if Collects(c, n) && n - c.historyRevisions > s.cutoff then n - c.historyRevisions else s.cutoff
  {
    if c.gcEvery > 0 { DividesIsMod(c.gcEvery, n); }
    ApplyPrunes(c, s, n, op);
    CutoffUntouched(c, s, n, op);
  }

  /**
   The horizon after any log with increasing indexes: it is exactly
   historyRevisions behind the last entry that collected, and nowhere ahead.
   */
  lemma {:induction false} HorizonIs(c: Config, log: Log)
    requires Indexed(log)
    ensures var cutoff := Run(c, log).cutoff;
            && (forall i :: 0 <= i < |log| && Collects(c, log[i].index) ==> log[i].index <= cutoff + c.historyRevisions)
            && (cutoff > 0 ==> exists i :: 0 <= i < |log| && Collects(c, log[i].index) && log[i].index == cutoff + c.historyRevisions)
            && (cutoff > 0 ==> cutoff + c.historyRevisions <= LastIndex(log))
    decreases |log|
  {
    if log != [] {
      var prev, e := log[..|log| - 1], log[|log| - 1];
      HorizonIs(c, prev);
      EntryHorizon(c, Run(c, prev), e.index, e.op);
      assert forall i :: 0 <= i < |prev| ==> prev[i] == log[i];
      if i :| 0 <= i < |prev| && Collects(c, prev[i].index) && prev[i].index == Run(c, prev).cutoff + c.historyRevisions {
        assert Collects(c, log[i].index);
      }
      if Collects(c, e.index) { assert log[|log| - 1] == e; }
    }
  }

  // --- versioned reads --------------------------------------------------------------------

  /**
   An answered get_at is exact: whatever the revision asked for, the record it
   returns is the one the key held once the log had been applied up to there.
   */
  lemma AnsweredReadIsPast(c: Config, log: Log, n: nat, k: Key, r: nat, res: Result)
    requires Indexed(log) && CleanLog(log) && Answers(c, Run(c, log), n, GetAt(k, r), res)
    ensures res.Read? || res == Rejected(TxTooOld)
    ensures res.Read? ==> res.record == Lookup(Run(c, Upto(log, r)).latest, k) && res.shardRev == r
    ensures res.Rejected? ==> r < Run(c, log).cutoff
  {
    if res.Read? { TimeTravel(c, log, k, r); }
  }

  /** Refusals are for old revisions only: the last historyRevisions indexes can always be read. */
  lemma RecentReadIsAnswered(c: Config, log: Log, n: nat, k: Key, r: nat, res: Result)
    requires Indexed(log) && CleanLog(log) && Answers(c, Run(c, log), n, GetAt(k, r), res)
    ensures res.Rejected? ==> r + c.historyRevisions < LastIndex(log)
    ensures LastIndex(log) <= r + c.historyRevisions ==> res == Read(Lookup(Run(c, Upto(log, r)).latest, k), r)
  {
    HorizonIs(c, log);
    AnsweredReadIsPast(c, log, n, k, r, res);
  }

  lemma {:induction false} UptoIgnores(log: Log, more: Log, r: nat)
    requires Indexed(log + more) && r <= LastIndex(log)
    ensures Upto(log + more, r) == Upto(log, r)
    decreases |more|
  {
    if more == [] {
      assert log + more == log;
    } else {
      var all, init := log + more, more[..|more| - 1];
      assert all[..|all| - 1] == log + init;
      LastGrows(log, init);
      UptoIgnores(log, init, r);
    }
  }

  lemma {:induction false} LastGrows(log: Log, more: Log)
    requires Indexed(log + more)
    ensures LastIndex(log) <= LastIndex(log + more)
    decreases |more|
  {
    if more == [] {
      assert log + more == log;
    } else {
      assert (log + more)[..|log + more| - 1] == log + more[..|more| - 1];
      LastGrows(log, more[..|more| - 1]);
    }
  }

  lemma LastEntryHorizon(c: Config, log: Log)
    requires log != []
    ensures Run(c, log[..|log| - 1]).cutoff <= Run(c, log).cutoff
  {
    EntryHorizon(c, Run(c, log[..|log| - 1]), log[|log| - 1].index, log[|log| - 1].op);
  }

  lemma {:induction false} CutoffGrows(c: Config, log: Log, more: Log)
    ensures Run(c, log).cutoff <= Run(c, log + more).cutoff
    decreases |more|
  {
    if more == [] {
      assert log + more == log;
    } else {
      var all, init := log + more, more[..|more| - 1];
      assert all[..|all| - 1] == log + init;
      CutoffGrows(c, log, init);
      LastEntryHorizon(c, all);
    }
  }

  /**
   A pin holds: a get reports the revision it ran at, and a get_at for that
   revision, whenever it is answered later, returns the record the get saw.
   */
  lemma PinHolds(c: Config, log: Log, more: Log, n: nat, m: nat, k: Key, first: Result, later: Result)
    requires Indexed(log) && Indexed(log + more) && CleanLog(log + more) && CleanLog(log)
    requires Answers(c, Run(c, log), n, Get(k), first)
    requires first.Read? && Answers(c, Run(c, log + more), m, GetAt(k, first.shardRev), later)
    ensures first.record == Lookup(Run(c, log).latest, k) && first.shardRev == Run(c, log).rev
    ensures later.Read? ==> later.record == first.record
  {
    var r := first.shardRev;
    RunInv(c, log);
    if later.Read? {
      AnsweredReadIsPast(c, log + more, m, k, r, later);
      UptoIgnores(log, more, r);
      ReadNow(Run(c, log), k, r);
      CutoffGrows(c, log, more);
      TimeTravel(c, log, k, r);
    }
  }

  /** The revision a versioned listing runs at. */
  ghost function ListedAt(c: Config, log: Log, atRev: nat): nat {
    if atRev == 0 then Run(c, log).rev else atRev
  }

  /**
   An answered list_at is exact: its page is the page of the keys the group
   held at that revision, and every entry, whatever the cursor, is a record of
   that time.
   */
  lemma AnsweredPageIsPast(c: Config, log: Log, n: nat, prefix: Key, cursor: Key, limit: int, atRev: nat, res: Result)
    requires Indexed(log) && CleanLog(log) && Answers(c, Run(c, log), n, ListAt(prefix, cursor, limit, atRev), res)
    ensures res.Page? || res == Rejected(TxTooOld)
    ensures res.Rejected? ==> ListedAt(c, log, atRev) < Run(c, log).cutoff && ListedAt(c, log, atRev) + c.historyRevisions < LastIndex(log)
    ensures res.Page? ==>
              var past := Run(c, Upto(log, ListedAt(c, log, atRev)));
              && res.shardRev == ListedAt(c, log, atRev)
              && (forall i :: 0 <= i < |res.entries| ==> Lookup(past.latest, res.entries[i].key) == Some(res.entries[i].record))
              && (cursor == [] || AtMost(prefix, cursor) ==> IsPage(Keys(res.entries), Listed(past, prefix, cursor), PageSize(limit)))
  {
    HorizonIs(c, log);
    if res.Page? {
      var r := ListedAt(c, log, atRev);
      forall i | 0 <= i < |res.entries| ensures Lookup(Run(c, Upto(log, r)).latest, res.entries[i].key) == Some(res.entries[i].record) {
        assert Keys(res.entries)[i] in Merged(Run(c, log), prefix, cursor, r);
        ResolvedIsPast(c, log, prefix, cursor, res.entries[i].key, r);
      }
      if cursor == [] || AtMost(prefix, cursor) { ListingTimeTravel(c, log, res.entries, prefix, cursor, ClampLimit(limit), r); }
    }
  }

  lemma ResolvedIsPast(c: Config, log: Log, prefix: Key, cursor: Key, k: Key, r: nat)
    requires Indexed(log) && CleanLog(log) && Run(c, log).cutoff <= r && (cursor == [] || Less(cursor, k))
    ensures var found := Resolve(Run(c, log), prefix, cursor, k, r);
            found.Some? ==> found == Lookup(Run(c, Upto(log, r)).latest, k)
  {
    TimeTravel(c, log, k, r);
    PrefixRange(k, prefix);
    assert HasPrefix(k, prefix) ==> InLatestScan(k, prefix, cursor);
  }

  // --- page sizes -----------------------------------------------------------------------------

  /** A page holds what was asked for, 1000 when the limit is out of range. */
  function PageSize(limit: int): nat {
    if 1 <= limit <= 10000 then limit else 1000
  }

  function Smaller(a: nat, b: nat): nat {
    if a < b then a else b
  }

  lemma RangePageSize(c: Config, s: State, n: nat, range: Range, cursor: Key, limit: int, res: Result)
    requires Answers(c, s, n, ListRange(range, cursor, limit), res)
    ensures res.Page? && |res.entries| == Smaller(PageSize(limit), |RangeKeys(s, range, cursor)|)
  {
    PageCount(Keys(res.entries), RangeKeys(s, range, cursor), ClampLimit(limit));
  }

  lemma ListedPageSize(c: Config, s: State, n: nat, prefix: Key, cursor: Key, limit: int, r: nat, res: Result)
    requires Answers(c, s, n, ListAt(prefix, cursor, limit, r), res) && res.Page?
    ensures |res.entries| == Smaller(PageSize(limit), |Merged(s, prefix, cursor, res.shardRev)|)
  {
    PageCount(Keys(res.entries), Merged(s, prefix, cursor, res.shardRev), ClampLimit(limit));
  }

  // --- refusals --------------------------------------------------------------------------------

  /** The key lies in the range a split has frozen. */
  predicate InFreeze(s: State, k: Key) {
    s.freeze.Some? && AtMost(s.freeze.value.start, k) && (s.freeze.value.end == [] || Less(k, s.freeze.value.end))
  }

  /** A freeze whose end is not past its start: it covers no key. */
  predicate EmptyFreeze(s: State) {
    s.freeze.Some? && s.freeze.value.end != [] && AtMost(s.freeze.value.end, s.freeze.value.start)
  }

  predicate InSpan(a: Key, b: Key, k: Key) {
    AtMost(a, k) && Less(k, b)
  }

  /** The empty freeze lies, as a position, inside the span. */
  predicate Straddles(s: State, a: Key, b: Key) {
    EmptyFreeze(s) && Less(a, b) && Less(s.freeze.value.start, b) && Less(a, s.freeze.value.end)
  }

  predicate Meets(s: State, a: Key, b: Key, k: Key) {
    InSpan(a, b, k) && InFreeze(s, k)
  }

  lemma SpanNotEmpty(a: Key, b: Key, k: Key)
    requires InSpan(a, b, k)
    ensures Less(a, b) && b != []
  {
    if a != k { LessTransitive(a, k, b); }
  }

  lemma MeetsOverlaps(s: State, a: Key, b: Key, k: Key)
    requires Meets(s, a, b, k)
    ensures FrozenOverlap(s, a, b) && !EmptyFreeze(s)
  {
    var f := s.freeze.value;
    SpanNotEmpty(a, b, k);
    if f.start != k { LessTransitive(f.start, k, b); }
    if f.end != [] {
      if a != k { LessTransitive(a, k, f.end); }
      LessIrreflexive(k);
      if AtMost(f.end, f.start) {
        if f.end == f.start { } else { LessTransitive(k, f.end, f.start); }
        if f.start != k { LessTransitive(k, f.start, k); }
      }
    }
  }

  lemma OverlapMeets(s: State, a: Key, b: Key) returns (k: Key)
    requires FrozenOverlap(s, a, b) && !EmptyFreeze(s)
    ensures Meets(s, a, b, k)
  {
    var f := s.freeze.value;
    LessTotal(a, f.start);
    k := if Less(a, f.start) then f.start else a;
    if f.end != [] { LessTotal(f.start, f.end); }
  }

  /**
   A delete range is refused for a split exactly when some key lies both in it
   and in the freeze; or, for a freeze that covers no key at all, when the
   span passes over it.
   */
  lemma DeleteRangeRefusedIff(c: Config, s: State, n: nat, a: Key, b: Key, res: Result)
    requires Answers(c, s, n, DeleteRange(a, b), res)
    ensures res == Rejected(ShardSplitting) <==> (exists k :: Meets(s, a, b, k)) || Straddles(s, a, b)
    ensures res == Written(n) <==> !(exists k :: Meets(s, a, b, k)) && !Straddles(s, a, b)
  {
    if FrozenOverlap(s, a, b) {
      if !EmptyFreeze(s) { var k := OverlapMeets(s, a, b); }
    } else {
      if k :| Meets(s, a, b, k) { MeetsOverlaps(s, a, b, k); }
    }
  }

  lemma DeleteRefusedIff(c: Config, s: State, n: nat, k: Key, res: Result)
    requires Answers(c, s, n, Delete(k), res)
    ensures res == if InFreeze(s, k) then Rejected(ShardSplitting) else Written(n)
  {
  }

  predicate Oversized(c: Config, v: Value) {
    c.maxValue > 0 && |v| > c.maxValue
  }

  lemma SetRefusedIff(c: Config, s: State, n: nat, k: Key, v: Value, blob: bool, res: Result)
    requires Answers(c, s, n, Set(k, v, blob), res)
    ensures res == if InFreeze(s, k) then Rejected(ShardSplitting) else if Oversized(c, v) then Rejected(ValueTooLarge) else Written(n)
  {
  }

  // Transactions: the freeze first, then the reads, then the first write that cannot be staged.

  predicate TouchesFreeze(s: State, ws: seq<TxWrite>) {
    exists i :: 0 <= i < |ws| && InFreeze(s, ws[i].key)
  }

  /** A read key has another revision by now, or carries somebody's intent. */
  predicate StaleRead(s: State, seen: map<Key, nat>, k: Key) {
    k in seen && ((if k in s.latest then s.latest[k].rev else 0) != seen[k] || k in s.intents)
  }

  /** The key carries an intent that is not the given transaction's own. */
  predicate Claimed(s: State, own: Option<Key>, k: Key) {
    k in s.intents && Some(s.intents[k].txid) != own
  }

  predicate Stageable(c: Config, s: State, own: Option<Key>, w: TxWrite) {
    !Claimed(s, own, w.key) && !Oversized(c, w.value)
  }

  /** Write i is the first that cannot be staged. */
  predicate FirstBad(c: Config, s: State, own: Option<Key>, ws: seq<TxWrite>, i: int) {
    0 <= i < |ws| && !Stageable(c, s, own, ws[i]) && forall j :: 0 <= j < i ==> Stageable(c, s, own, ws[j])
  }

  lemma {:induction false} BadWriteIs(c: Config, s: State, own: Option<Key>, ws: seq<TxWrite>)
    ensures BadWrite(c, s, own, ws).None? <==> forall i :: 0 <= i < |ws| ==> Stageable(c, s, own, ws[i])
    ensures BadWrite(c, s, own, ws).Some? ==>
              exists i :: FirstBad(c, s, own, ws, i) && BadWrite(c, s, own, ws).value == if Claimed(s, own, ws[i].key) then Conflict else ValueTooLarge
  {
    if ws != [] {
      var rest := ws[1..];
      BadWriteIs(c, s, own, rest);
      assert forall i :: 0 <= i < |rest| ==> rest[i] == ws[i + 1];
      if !Stageable(c, s, own, ws[0]) {
        assert FirstBad(c, s, own, ws, 0);
      } else {
        assert BadWrite(c, s, own, ws) == BadWrite(c, s, own, rest);
        if BadWrite(c, s, own, rest).Some? {
          var i :| FirstBad(c, s, own, rest, i) && BadWrite(c, s, own, rest).value == if Claimed(s, own, rest[i].key) then Conflict else ValueTooLarge;
          assert FirstBad(c, s, own, ws, i + 1);
        } else {
          forall i | 0 <= i < |ws| ensures Stageable(c, s, own, ws[i]) { if i > 0 { assert ws[i] == rest[i - 1]; } }
        }
      }
    }
  }

  /** What a transaction command is answered, from the state alone. */
  ghost predicate TxAnswer(c: Config, s: State, own: Option<Key>, seen: map<Key, nat>, ws: seq<TxWrite>, ok: Result, res: Result) {
    && (res == Rejected(ShardSplitting) <==> TouchesFreeze(s, ws))
    && (res == ok <==>
        !TouchesFreeze(s, ws) && (forall k :: !StaleRead(s, seen, k)) && forall i :: 0 <= i < |ws| ==> Stageable(c, s, own, ws[i]))
    && (res == Rejected(Conflict) <==>
        !TouchesFreeze(s, ws) &&
        ((exists k :: StaleRead(s, seen, k)) || exists i :: FirstBad(c, s, own, ws, i) && Claimed(s, own, ws[i].key)))
    && (res == Rejected(ValueTooLarge) <==>
        !TouchesFreeze(s, ws) && (forall k :: !StaleRead(s, seen, k)) &&
        exists i :: FirstBad(c, s, own, ws, i) && !Claimed(s, own, ws[i].key))
  }

  lemma FreezeAgrees(s: State, ws: seq<TxWrite>)
    ensures Kv.FrozenWrites(s, ws) <==> TouchesFreeze(s, ws)
  {
    if TouchesFreeze(s, ws) {
      var i :| 0 <= i < |ws| && InFreeze(s, ws[i].key);
      assert Frozen(s, ws[i].key);
    }
    if Kv.FrozenWrites(s, ws) {
      var i :| 0 <= i < |ws| && Frozen(s, ws[i].key);
      assert InFreeze(s, ws[i].key);
    }
  }

  lemma ReadsAgree(s: State, seen: map<Key, nat>)
    ensures ReadsValid(s, seen) <==> forall k :: !StaleRead(s, seen, k)
  {
    if !ReadsValid(s, seen) {
      var k :| k in seen && !(RevOf(s, k) == seen[k] && k !in s.intents);
      assert StaleRead(s, seen, k);
    }
  }

  /** One transaction check, whatever the answer to an accepted one is. */
  lemma TxChecked(c: Config, s: State, own: Option<Key>, seen: map<Key, nat>, ws: seq<TxWrite>, ok: Result, res: Result)
    requires !ok.Rejected?
    requires res == if Kv.FrozenWrites(s, ws) then Rejected(ShardSplitting)
                    else if !ReadsValid(s, seen) then Rejected(Conflict)
                    else if BadWrite(c, s, own, ws).Some? then Rejected(BadWrite(c, s, own, ws).value)
                    else ok
    ensures TxAnswer(c, s, own, seen, ws, ok, res)
  {
    FreezeAgrees(s, ws);
    ReadsAgree(s, seen);
    BadWriteIs(c, s, own, ws);
  }

  lemma TxApplyAnswer(c: Config, s: State, n: nat, seen: map<Key, nat>, ws: seq<TxWrite>, res: Result)
    requires Answers(c, s, n, TxApply(seen, ws), res)
    ensures TxAnswer(c, s, None, seen, ws, Written(n), res)
  {
    TxChecked(c, s, None, seen, ws, Written(n), res);
  }

  lemma TxPrepareAnswer(c: Config, s: State, n: nat, txid: Key, seen: map<Key, nat>, ws: seq<TxWrite>, res: Result)
    requires Answers(c, s, n, TxPrepare(txid, seen, ws), res)
    ensures TxAnswer(c, s, Some(txid), seen, ws, Done, res)
  {
    TxChecked(c, s, Some(txid), seen, ws, Done, res);
  }

  // --- the size cap over whole logs ------------------------------------------------------------------

  predicate WithinCap(c: Config, ws: seq<TxWrite>) {
    forall i :: 0 <= i < |ws| ==> !Oversized(c, ws[i].value)
  }

  /** Nothing stored, live, archived or prepared, exceeds the cap. */
  ghost predicate Capped(c: Config, s: State) {
    && (forall k :: k in s.latest ==> !Oversized(c, s.latest[k].value))
    && (forall v :: v in s.hist ==> !Oversized(c, s.hist[v].value))
    && (forall k :: k in s.intents ==> WithinCap(c, s.intents[k].writes))
  }

  lemma {:induction false} StageCapped(c: Config, db: State, n: nat, ws: seq<TxWrite>)
    requires Capped(c, db) && WithinCap(c, ws)
    ensures Capped(c, Stage(db, n, ws))
    decreases |ws|
  {
    if ws != [] { StageCapped(c, db, n, ws[..|ws| - 1]); }
  }

  lemma {:induction false} IntentsCapped(c: Config, s: State, keys: seq<Key>)
    requires Capped(c, s) && forall k :: k in keys ==> k in s.intents
    ensures WithinCap(c, IntentWrites(s.intents, keys))
    decreases |keys|
  {
    if keys != [] {
      assert keys[|keys| - 1] in keys;
      IntentsCapped(c, s, keys[..|keys| - 1]);
    }
  }

  lemma {:induction false} FirstWinsCapped(c: Config, ws: seq<TxWrite>)
    requires WithinCap(c, ws)
    ensures WithinCap(c, FirstWins(ws))
    decreases |ws|
  {
    if ws != [] { FirstWinsCapped(c, ws[..|ws| - 1]); }
  }

  lemma WritesCapped(c: Config, s: State, op: Op)
    requires Capped(c, s) && Rejection(c, s, op).None?
    ensures WithinCap(c, WritesOf(s, op)) && (op.TxPrepare? ==> WithinCap(c, op.writes))
  {
    match op
    case TxApply(_, ws) => BadWriteIs(c, s, None, ws);
    case TxPrepare(txid, _, ws) => BadWriteIs(c, s, Some(txid), ws);
    case TxCommit(txid) =>
      IntentsCapped(c, s, Sorted(TxKeys(s, txid)));
      FirstWinsCapped(c, IntentWrites(s.intents, Sorted(TxKeys(s, txid))));
    case _ =>
  }

  lemma AcceptedCapped(c: Config, s: State, n: nat, op: Op)
    requires Capped(c, s) && Rejection(c, s, op).None? && (op.CopyIn? ==> forall k :: k in op.pairs ==> !Oversized(c, op.pairs[k].value))
    ensures Capped(c, Accepted(s, n, op))
  {
    WritesCapped(c, s, op);
    StageCapped(c, s, n, WritesOf(s, op));
    StageFrame(s, n, WritesOf(s, op));
  }

  lemma EntryCapped(c: Config, s: State, n: nat, op: Op)
    requires Capped(c, s) && (op.CopyIn? ==> forall k :: k in op.pairs ==> !Oversized(c, op.pairs[k].value))
    ensures Capped(c, Kv.Apply(c, s, n, op))
  {
    ApplyPrunes(c, s, n, op);
    if Rejection(c, s, op).None? { AcceptedCapped(c, s, n, op); }
  }

  /** No log stores a value past the cap, unless it imports one. */
  lemma {:induction false} CapHolds(c: Config, log: Log)
    requires forall i :: 0 <= i < |log| && log[i].op.CopyIn? ==> forall k :: k in log[i].op.pairs ==> !Oversized(c, log[i].op.pairs[k].value)
    ensures Capped(c, Run(c, log))
    decreases |log|
  {
    if log != [] {
      CapHolds(c, log[..|log| - 1]);
      EntryCapped(c, Run(c, log[..|log| - 1]), log[|log| - 1].index, log[|log| - 1].op);
    }
  }

  // --- what an answer tells -----------------------------------------------------------------------

  /** A refused command changes nothing but what garbage collection takes; a revision is reported exactly when it is reached. */
  lemma AnswerTellsRevision(c: Config, s: State, n: nat, op: Op, res: Result)
    requires Answers(c, s, n, op, res)
    ensures Kv.Apply(c, s, n, op).rev == if res.Written? then res.rev else s.rev
    ensures !res.Written? && res != Done ==> var t := Kv.Apply(c, s, n, op); t.latest == s.latest && t.intents == s.intents && t.freeze == s.freeze
  {
    ApplyPrunes(c, s, n, op);
    if Rejection(c, s, op).None? { StageFrame(s, n, WritesOf(s, op)); }
  }

  /** Cleanup lifts its own freeze and no other. */
  lemma CleanupLifts(c: Config, s: State, n: nat, range: Range, k: Key)
    ensures InFreeze(Kv.Apply(c, s, n, SplitCleanup(range)), k) <==> InFreeze(s, k) && s.freeze != Some(range)
  {
    var op := SplitCleanup(range);
    ApplyPrunes(c, s, n, op);
    StageFrame(s, n, WritesOf(s, op));
  }

  lemma FreezeFreezes(c: Config, s: State, n: nat, range: Range, k: Key)
    ensures InFreeze(Kv.Apply(c, s, n, FreezeRange(range)), k) <==> AtMost(range.start, k) && (range.end == [] || Less(k, range.end))
  {
    ApplyPrunes(c, s, n, FreezeRange(range));
  }
}
