/**
 What one entry does to the versioned reads of one key: exactly which reads it
 keeps, and exactly when reads see what it left. Nothing is assumed of the
 state but that archived versions carry their own revision, so the results
 hold after any log: imported records, revisions that went back, write lists
 that delete and put one key.
 */
module Reads {
  import opened Bytes
  import opened Layout
  import opened Kv
  import opened Mvcc

  /** True after every log: archiving and tombstones use the record's own revision. */
  ghost predicate Stamped(s: State) {
    forall v :: v in s.hist ==> s.hist[v].rev == v.rev
  }

  function Later(a: nat, b: nat): nat {
    if a < b then b else a
  }

  // --- what an entry leaves, told from the state before it --------------------------------

  function Written(c: Config, s: State, op: Op, k: Key): Option<TxWrite> {
    LastWrite(Performed(c, s, op), k)
  }

  /** The entry replaces or removes the record of k, or creates one. */
  predicate Touches(c: Config, s: State, op: Op, k: Key) {
    if op.CopyIn? then k in op.pairs
    else Written(c, s, op, k).Some? && (Written(c, s, op, k).value.delete ==> k in s.latest)
  }

  /** The entry removes a live record of k. */
  predicate Removes(c: Config, s: State, op: Op, k: Key) {
    Written(c, s, op, k).Some? && Written(c, s, op, k).value.delete && k in s.latest
  }

  function Left(c: Config, s: State, n: nat, op: Op, k: Key): Option<Record> {
    if op.CopyIn? && k in op.pairs then Some(op.pairs[k]) else Mvcc.After(s, n, Performed(c, s, op), k)
  }

  /** The entry's archiving and tombstones, then the deletions of its garbage collection. */
  ghost function HistLeft(c: Config, s: State, n: nat, op: Op, v: Version): Option<HistVersion> {
    if v in Pruned(c, s, n) then None else HistAfter(s, n, Performed(c, s, op), v)
  }

  /** The revision the group reports after the entry. */
  function Reached(c: Config, s: State, n: nat, op: Op): nat {
    if op.CopyIn? then MaxRev(op.pairs, s.rev)
    else if Rejection(c, s, op).None? && Bumps(op) then n
    else s.rev
  }

  lemma ImportShape(c: Config, s: State, n: nat, pairs: map<Key, Record>)
    ensures var t := Apply(c, s, n, CopyIn(pairs));
            && t.latest == s.latest + pairs && t.rev == MaxRev(pairs, s.rev)
            && t.hist == s.hist - Pruned(c, s, n) && t.cutoff == CutoffAfter(c, s, n)
  {
    ApplyPrunes(c, s, n, CopyIn(pairs));
  }

  lemma LeftIs(c: Config, s: State, n: nat, op: Op, k: Key)
    ensures Lookup(Apply(c, s, n, op).latest, k) == Left(c, s, n, op, k)
  {
    if op.CopyIn? { ImportShape(c, s, n, op.pairs); } else { EntryLatest(c, s, n, op, k); }
  }

  lemma HistLeftIs(c: Config, s: State, n: nat, op: Op, v: Version)
    ensures var t := Apply(c, s, n, op); (if v in t.hist then Some(t.hist[v]) else None) == HistLeft(c, s, n, op, v)
  {
    if op.CopyIn? { ImportShape(c, s, n, op.pairs); } else { EntryHist(c, s, n, op, v); }
  }

  lemma ReachedIs(c: Config, s: State, n: nat, op: Op)
    ensures Apply(c, s, n, op).rev == Reached(c, s, n, op) && Apply(c, s, n, op).cutoff == CutoffAfter(c, s, n)
  {
    if op.CopyIn? {
      ImportShape(c, s, n, op.pairs);
    } else {
      ApplyPrunes(c, s, n, op);
      ApplyShape(c, s, n, op);
      if Rejection(c, s, op).None? { AcceptedShape(s, n, op); }
    }
  }

  lemma LeftStamped(c: Config, s: State, n: nat, op: Op, v: Version)
    requires Stamped(s) && HistLeft(c, s, n, op, v).Some?
    ensures HistLeft(c, s, n, op, v).value.rev == v.rev
  {
  }

  lemma StampedStep(c: Config, s: State, n: nat, op: Op)
    requires Stamped(s)
    ensures Stamped(Apply(c, s, n, op))
  {
    var t := Apply(c, s, n, op);
    forall v | v in t.hist ensures t.hist[v].rev == v.rev {
      HistLeftIs(c, s, n, op, v);
      LeftStamped(c, s, n, op, v);
    }
  }

  /** A read at r can only give a record of revision at most r. */
  lemma ReadRev(s: State, k: Key, r: nat)
    requires Stamped(s)
    ensures ReadAt(s, k, r).Some? ==> ReadAt(s, k, r).value.rev <= r
    ensures HistRead(s.hist, k, r).Some? ==> NewestAt(s.hist, k, r) == Some(HistRead(s.hist, k, r).value.rev)
  {
    var found := NewestAt(s.hist, k, r);
    if found.Some? { assert s.hist[Version(k, found.value)].rev == found.value; }
  }

  // --- which reads an entry keeps -----------------------------------------------------------

  /** Reads of k at revisions from `from` on and below `to` are unchanged. */
  ghost predicate Unchanged(c: Config, s: State, n: nat, op: Op, k: Key, from: nat, to: nat) {
    forall r :: from <= r < to ==> ReadAt(Apply(c, s, n, op), k, r) == ReadAt(s, k, r)
  }

  /** The superseded record is archived, and no version newer than it is left below `to`. */
  ghost predicate ArchiveAnswers(c: Config, s: State, n: nat, op: Op, k: Key, to: nat)
    requires k in s.latest
  {
    && HistLeft(c, s, n, op, Version(k, s.latest[k].rev)) == Some(Archived(s.latest[k]))
    && forall p: nat :: s.latest[k].rev < p < to ==> HistLeft(c, s, n, op, Version(k, p)).None?
  }

  /**
   A removal's tombstone at n changes no read: the first one it could reach
   is out of bounds, is past the removed record, is served by a version in
   between, or found nothing anyway.
   */
  ghost predicate HidesNothing(s: State, n: nat, k: Key, from: nat, to: nat)
    requires k in s.latest
  {
    var q := Later(n, from);
    || to <= q
    || s.latest[k].rev <= q
    || (exists p: nat :: n < p <= q && Version(k, p) in s.hist)
    || ReadAt(s, k, q) == None
  }

  /**
   What can be checked before the entry applies. A new record that reads in
   bounds would see must be the one they see now; otherwise the superseded
   record must answer from the archive, and a tombstone must hide nothing.
   */
  ghost predicate KeepsReads(c: Config, s: State, n: nat, op: Op, k: Key, from: nat, to: nat) {
    || to <= from
    || !Touches(c, s, op, k)
    || if OutOfReach(Left(c, s, n, op, k), to) then KeepsBehind(c, s, n, op, k, from, to)
       else ReadAt(s, k, to - 1) == Left(c, s, n, op, k)
  }

  /** A new record no read in bounds would see. */
  predicate OutOfReach(left: Option<Record>, to: nat) {
    left.Some? ==> to <= left.value.rev
  }

  ghost predicate KeepsBehind(c: Config, s: State, n: nat, op: Op, k: Key, from: nat, to: nat) {
    && (k in s.latest && s.latest[k].rev < to ==> ArchiveAnswers(c, s, n, op, k, to))
    && (Removes(c, s, op, k) ==> HidesNothing(s, n, k, from, to))
  }

  /** Below the live record, and out of a tombstone's reach, only pruning acts. */
  lemma BelowKeeps(c: Config, s: State, n: nat, op: Op, k: Key, r: nat)
    requires CutoffAfter(c, s, n) <= r && (k in s.latest ==> r < s.latest[k].rev)
    requires Entombs(s, n, Performed(c, s, op), k) ==> r < n
    ensures HistRead(Apply(c, s, n, op).hist, k, r) == HistRead(s.hist, k, r)
  {
    var t, h := Apply(c, s, n, op).hist, s.hist - Pruned(c, s, n);
    forall p: nat {:trigger Version(k, p)} | p <= r
      ensures (Version(k, p) in t <==> Version(k, p) in h) && (Version(k, p) in h ==> t[Version(k, p)] == h[Version(k, p)])
    {
      HistLeftIs(c, s, n, op, Version(k, p));
    }
    HistReadLocal(t, h, k, r);
    PrunedReads(c, s, n, k, r);
  }

  lemma UntouchedKeeps(c: Config, s: State, n: nat, op: Op, k: Key, r: nat)
    requires CutoffAfter(c, s, n) <= r && !Touches(c, s, op, k)
    ensures ReadAt(Apply(c, s, n, op), k, r) == ReadAt(s, k, r)
  {
    LeftIs(c, s, n, op, k);
    DeletedInWritten(Performed(c, s, op), k);
    if !(k in s.latest && s.latest[k].rev <= r) { BelowKeeps(c, s, n, op, k, r); }
  }

  /** A record that is put at n, or imported, leaves no tombstone below its revision's reads. */
  lemma PutEntombs(c: Config, s: State, n: nat, op: Op, k: Key)
    requires Touches(c, s, op, k) && Left(c, s, n, op, k).Some? && Entombs(s, n, Performed(c, s, op), k)
    ensures Left(c, s, n, op, k).value.rev == n
  {
  }

  /** From its revision on the new record is read. */
  lemma ReadsLeft(c: Config, s: State, n: nat, op: Op, k: Key, r: nat)
    requires var left := Left(c, s, n, op, k); left.Some? && left.value.rev <= r
    ensures ReadAt(Apply(c, s, n, op), k, r) == Left(c, s, n, op, k)
  {
    LeftIs(c, s, n, op, k);
  }

  /** A record read at `last` is read at every revision from its own up to there. */
  lemma LastReadHolds(s: State, k: Key, r: nat, last: nat)
    requires Stamped(s) && ReadAt(s, k, last).Some? && ReadAt(s, k, last).value.rev <= r <= last
    ensures ReadAt(s, k, r) == ReadAt(s, k, last)
  {
    ReadRev(s, k, last);
    if !(k in s.latest && s.latest[k].rev <= last) {
      assert NewestAt(s.hist, k, r) == NewestAt(s.hist, k, last);
    }
  }

  lemma BelowSame(c: Config, s: State, n: nat, op: Op, k: Key, to: nat, r: nat)
    requires Stamped(s) && CutoffAfter(c, s, n) <= r && Touches(c, s, op, k)
    requires var left := Left(c, s, n, op, k); left.Some? && r < left.value.rev < to && ReadAt(s, k, to - 1) == left
    ensures ReadAt(Apply(c, s, n, op), k, r) == ReadAt(s, k, r)
  {
    LeftIs(c, s, n, op, k);
    ReadRev(s, k, to - 1);
    if Entombs(s, n, Performed(c, s, op), k) { PutEntombs(c, s, n, op, k); }
    BelowKeeps(c, s, n, op, k, r);
  }

  /** Reads of the superseded record, from its revision on. */
  lemma ArchiveReads(c: Config, s: State, n: nat, op: Op, k: Key, to: nat, r: nat)
    requires k in s.latest && s.latest[k].rev <= r < to && OutOfReach(Left(c, s, n, op, k), to)
    requires ArchiveAnswers(c, s, n, op, k, to)
    ensures ReadAt(Apply(c, s, n, op), k, r) == Some(s.latest[k])
  {
    var t, m := Apply(c, s, n, op), s.latest[k].rev;
    LeftIs(c, s, n, op, k);
    HistLeftIs(c, s, n, op, Version(k, m));
    var found := NewestAt(t.hist, k, r).value;
    HistLeftIs(c, s, n, op, Version(k, found));
    assert found == m;
  }

  lemma ArchiveFails(c: Config, s: State, n: nat, op: Op, k: Key, from: nat, to: nat) returns (r: nat)
    requires Stamped(s) && from < to && k in s.latest && s.latest[k].rev < to && OutOfReach(Left(c, s, n, op, k), to)
    requires !ArchiveAnswers(c, s, n, op, k, to)
    ensures from <= r < to && s.latest[k].rev <= r && ReadAt(Apply(c, s, n, op), k, r) != Some(s.latest[k])
  {
    var m := s.latest[k].rev;
    if p: nat :| m < p < to && HistLeft(c, s, n, op, Version(k, p)).Some? {
      r := Later(from, p);
      NewerHides(c, s, n, op, k, p, r);
    } else {
      r := Later(from, m);
      Unarchived(c, s, n, op, k, r);
    }
  }

  lemma NewerHides(c: Config, s: State, n: nat, op: Op, k: Key, p: nat, r: nat)
    requires Stamped(s) && k in s.latest && OutOfReach(Left(c, s, n, op, k), r + 1)
    requires s.latest[k].rev < p <= r && HistLeft(c, s, n, op, Version(k, p)).Some?
    ensures ReadAt(Apply(c, s, n, op), k, r) != Some(s.latest[k])
  {
    LeftIs(c, s, n, op, k);
    StampedStep(c, s, n, op);
    HistLeftIs(c, s, n, op, Version(k, p));
    ReadRev(Apply(c, s, n, op), k, r);
  }

  lemma Unarchived(c: Config, s: State, n: nat, op: Op, k: Key, r: nat)
    requires Stamped(s) && k in s.latest && OutOfReach(Left(c, s, n, op, k), r + 1)
    requires HistLeft(c, s, n, op, Version(k, s.latest[k].rev)) != Some(Archived(s.latest[k]))
    ensures ReadAt(Apply(c, s, n, op), k, r) != Some(s.latest[k])
  {
    LeftIs(c, s, n, op, k);
    StampedStep(c, s, n, op);
    HistLeftIs(c, s, n, op, Version(k, s.latest[k].rev));
    ReadRev(Apply(c, s, n, op), k, r);
  }

  // Removals, below the removed record's revision.

  /** The version a readable revision needs is not pruned. */
  lemma NewestUnpruned(c: Config, s: State, n: nat, k: Key, r: nat)
    requires k in s.latest && r < s.latest[k].rev && CutoffAfter(c, s, n) <= r && NewestAt(s.hist, k, r).Some?
    ensures Version(k, NewestAt(s.hist, k, r).value) !in Pruned(c, s, n)
  {
    var v := Version(k, NewestAt(s.hist, k, r).value);
    if NewCutoff(c, s.cutoff, n).Some? {
      var cutoff := NewCutoff(c, s.cutoff, n).value;
      forall w | w in s.hist && w.key == k && v.rev < w.rev ensures w.rev > cutoff { assert w == Version(k, w.rev); }
      assert !Prunable(s, cutoff, v);
    }
  }

  lemma RemovalEntombs(c: Config, s: State, n: nat, op: Op, k: Key)
    requires Removes(c, s, op, k)
    ensures Entombs(s, n, Performed(c, s, op), k)
  {
    LastWriteIn(Performed(c, s, op), k);
  }

  predicate VersionIn(s: State, k: Key, n: nat, r: nat) {
    exists p: nat :: n < p <= r && Version(k, p) in s.hist
  }

  /** Between a tombstone and the live revision the history changes by pruning alone. */
  lemma BetweenLeft(c: Config, s: State, n: nat, op: Op, k: Key, p: nat)
    requires p != n && k in s.latest && p != s.latest[k].rev
    ensures var v := Version(k, p); HistLeft(c, s, n, op, v) == if v in s.hist && v !in Pruned(c, s, n) then Some(s.hist[v]) else None
  {
  }

  lemma VersionAnswers(c: Config, s: State, n: nat, op: Op, k: Key, r: nat)
    requires Removes(c, s, op, k) && n <= r < s.latest[k].rev && CutoffAfter(c, s, n) <= r && VersionIn(s, k, n, r)
    ensures HistRead(Apply(c, s, n, op).hist, k, r) == HistRead(s.hist, k, r)
  {
    var t, a := Apply(c, s, n, op).hist, NewestAt(s.hist, k, r).value;
    NewestUnpruned(c, s, n, k, r);
    BetweenLeft(c, s, n, op, k, a);
    HistLeftIs(c, s, n, op, Version(k, a));
    var b := NewestAt(t, k, r).value;
    BetweenLeft(c, s, n, op, k, b);
    HistLeftIs(c, s, n, op, Version(k, b));
    assert b == a;
  }

  lemma TombstoneAnswers(c: Config, s: State, n: nat, op: Op, k: Key, r: nat)
    requires Removes(c, s, op, k) && n <= r < s.latest[k].rev && CutoffAfter(c, s, n) <= r && !VersionIn(s, k, n, r)
    ensures HistRead(Apply(c, s, n, op).hist, k, r) == None
  {
    var t := Apply(c, s, n, op).hist;
    RemovalEntombs(c, s, n, op, k);
    if Version(k, n) in s.hist {
      assert NewestAt(s.hist, k, r) == Some(n);
      NewestUnpruned(c, s, n, k, r);
    }
    HistLeftIs(c, s, n, op, Version(k, n));
    var b := NewestAt(t, k, r).value;
    HistLeftIs(c, s, n, op, Version(k, b));
    assert b == n;
  }

  lemma NothingBetween(s: State, n: nat, k: Key, q: nat, r: nat)
    requires n <= q <= r && !VersionIn(s, k, n, r)
    ensures HistRead(s.hist, k, q) == HistRead(s.hist, k, r)
  {
    var a, b := NewestAt(s.hist, k, q), NewestAt(s.hist, k, r);
    if b.Some? { assert Version(k, b.value) in s.hist; }
    if a.Some? { assert Version(k, a.value) in s.hist; }
  }

  /** One read below the removed record. */
  lemma BelowRemoved(c: Config, s: State, n: nat, op: Op, k: Key, from: nat, to: nat, r: nat)
    requires Removes(c, s, op, k) && CutoffAfter(c, s, n) <= from <= r < to && r < s.latest[k].rev && HidesNothing(s, n, k, from, to)
    ensures ReadAt(Apply(c, s, n, op), k, r) == ReadAt(s, k, r)
  {
    LeftIs(c, s, n, op, k);
    if r < n {
      BelowKeeps(c, s, n, op, k, r);
    } else if VersionIn(s, k, n, r) {
      VersionAnswers(c, s, n, op, k, r);
    } else {
      TombstoneAnswers(c, s, n, op, k, r);
      NothingBetween(s, n, k, Later(n, from), r);
    }
  }

  lemma RemovalHides(c: Config, s: State, n: nat, op: Op, k: Key, from: nat, to: nat)
    requires Removes(c, s, op, k) && CutoffAfter(c, s, n) <= from && !HidesNothing(s, n, k, from, to)
    ensures var r := Later(n, from); from <= r < to && ReadAt(Apply(c, s, n, op), k, r) != ReadAt(s, k, r)
  {
    LeftIs(c, s, n, op, k);
    TombstoneAnswers(c, s, n, op, k, Later(n, from));
  }

  lemma KeptRead(c: Config, s: State, n: nat, op: Op, k: Key, from: nat, to: nat, r: nat)
    requires Stamped(s) && CutoffAfter(c, s, n) <= from <= r < to && KeepsReads(c, s, n, op, k, from, to)
    ensures ReadAt(Apply(c, s, n, op), k, r) == ReadAt(s, k, r)
  {
    var left := Left(c, s, n, op, k);
    if !Touches(c, s, op, k) {
      UntouchedKeeps(c, s, n, op, k, r);
    } else if left.Some? && left.value.rev <= r {
      // The record the last read in bounds sees: this one sees it too.
      ReadsLeft(c, s, n, op, k, r);
      LastReadHolds(s, k, r, to - 1);
    } else if left.Some? && left.value.rev < to {
      BelowSame(c, s, n, op, k, to, r);
    } else if k in s.latest && s.latest[k].rev <= r {
      ArchiveReads(c, s, n, op, k, to, r);
    } else if Removes(c, s, op, k) {
      BelowRemoved(c, s, n, op, k, from, to, r);
    } else {
      LeftIs(c, s, n, op, k);
      if Entombs(s, n, Performed(c, s, op), k) { PutEntombs(c, s, n, op, k); }
      BelowKeeps(c, s, n, op, k, r);
    }
  }

  lemma ChangedLast(c: Config, s: State, n: nat, op: Op, k: Key, to: nat)
    requires 0 < to && !OutOfReach(Left(c, s, n, op, k), to) && ReadAt(s, k, to - 1) != Left(c, s, n, op, k)
    ensures ReadAt(Apply(c, s, n, op), k, to - 1) != ReadAt(s, k, to - 1)
  {
    ReadsLeft(c, s, n, op, k, to - 1);
  }

  lemma ChangedBehind(c: Config, s: State, n: nat, op: Op, k: Key, from: nat, to: nat) returns (r: nat)
    requires Stamped(s) && CutoffAfter(c, s, n) <= from < to && OutOfReach(Left(c, s, n, op, k), to) && !KeepsBehind(c, s, n, op, k, from, to)
    ensures from <= r < to && ReadAt(Apply(c, s, n, op), k, r) != ReadAt(s, k, r)
  {
    if k in s.latest && s.latest[k].rev < to && !ArchiveAnswers(c, s, n, op, k, to) {
      r := ArchiveFails(c, s, n, op, k, from, to);
    } else {
      RemovalHides(c, s, n, op, k, from, to);
      r := Later(n, from);
    }
  }

  /**
   Exactly which entries keep the reads of a key between two revisions: every
   command, imports included, at any index, in any state a log can reach.
   */
  lemma UnchangedIff(c: Config, s: State, n: nat, op: Op, k: Key, from: nat, to: nat)
    requires Stamped(s) && CutoffAfter(c, s, n) <= from
    ensures Unchanged(c, s, n, op, k, from, to) <==> KeepsReads(c, s, n, op, k, from, to)
  {
    if KeepsReads(c, s, n, op, k, from, to) {
      forall r | from <= r < to ensures ReadAt(Apply(c, s, n, op), k, r) == ReadAt(s, k, r) { KeptRead(c, s, n, op, k, from, to, r); }
    } else if OutOfReach(Left(c, s, n, op, k), to) {
      var r := ChangedBehind(c, s, n, op, k, from, to);
      assert ReadAt(Apply(c, s, n, op), k, r) != ReadAt(s, k, r);
    } else {
      ChangedLast(c, s, n, op, k, to);
    }
  }

  // --- when reads see what the entry left ------------------------------------------------------

  /** Every read from a revision on sees the latest record of k, or that there is none. */
  ghost predicate Current(s: State, k: Key, from: nat) {
    forall r :: from <= r ==> ReadAt(s, k, r) == Lookup(s.latest, k)
  }

  /** A live key is read at r if and only if its revision is at most r. */
  lemma LiveReadIff(s: State, k: Key, r: nat)
    requires Stamped(s) && k in s.latest
    ensures ReadAt(s, k, r) == Some(s.latest[k]) <==> s.latest[k].rev <= r
  {
    ReadRev(s, k, r);
  }

  ghost predicate Shows(c: Config, s: State, n: nat, op: Op, k: Key, p: nat) {
    HistLeft(c, s, n, op, Version(k, p)).Some? && !HistLeft(c, s, n, op, Version(k, p)).value.deleted
  }

  /** A tombstone newer than p, at most at `from`, is left. */
  ghost predicate Buried(c: Config, s: State, n: nat, op: Op, k: Key, p: nat, from: nat) {
    exists q: nat :: p < q <= from && HistLeft(c, s, n, op, Version(k, q)).Some? && HistLeft(c, s, n, op, Version(k, q)).value.deleted
  }

  /**
   What can be checked before the entry applies. A key it leaves alive must
   have a revision at most `from`; under a key it leaves dead every version
   that is left must be followed by a tombstone up to `from`.
   */
  ghost predicate Settles(c: Config, s: State, n: nat, op: Op, k: Key, from: nat) {
    var left := Left(c, s, n, op, k);
    if left.Some? then left.value.rev <= from
    else forall p: nat {:trigger Shows(c, s, n, op, k, p)} :: Shows(c, s, n, op, k, p) ==> Buried(c, s, n, op, k, p, from)
  }

  lemma BuriedReads(c: Config, s: State, n: nat, op: Op, k: Key, from: nat, r: nat)
    requires Left(c, s, n, op, k).None? && Settles(c, s, n, op, k, from) && from <= r
    ensures ReadAt(Apply(c, s, n, op), k, r) == None
  {
    var t := Apply(c, s, n, op);
    LeftIs(c, s, n, op, k);
    var found := NewestAt(t.hist, k, r);
    if found.Some? && !t.hist[Version(k, found.value)].deleted {
      HistLeftIs(c, s, n, op, Version(k, found.value));
      assert Shows(c, s, n, op, k, found.value);
      var q: nat :| found.value < q <= from && HistLeft(c, s, n, op, Version(k, q)).Some?;
      HistLeftIs(c, s, n, op, Version(k, q));
    }
  }

  lemma UnburiedRead(c: Config, s: State, n: nat, op: Op, k: Key, from: nat, p: nat)
    requires Left(c, s, n, op, k).None? && Shows(c, s, n, op, k, p) && !Buried(c, s, n, op, k, p, from)
    ensures ReadAt(Apply(c, s, n, op), k, Later(p, from)).Some?
  {
    var t, r := Apply(c, s, n, op), Later(p, from);
    LeftIs(c, s, n, op, k);
    HistLeftIs(c, s, n, op, Version(k, p));
    var found := NewestAt(t.hist, k, r).value;
    HistLeftIs(c, s, n, op, Version(k, found));
  }

  /** Exactly when every read from `from` on sees what the entry left of k. */
  lemma CurrentIff(c: Config, s: State, n: nat, op: Op, k: Key, from: nat)
    requires Stamped(s)
    ensures Current(Apply(c, s, n, op), k, from) <==> Settles(c, s, n, op, k, from)
  {
    var t, left := Apply(c, s, n, op), Left(c, s, n, op, k);
    LeftIs(c, s, n, op, k);
    if left.Some? {
      StampedStep(c, s, n, op);
      LiveReadIff(t, k, from);
    } else if Settles(c, s, n, op, k, from) {
      forall r | from <= r ensures ReadAt(t, k, r) == None { BuriedReads(c, s, n, op, k, from, r); }
    } else {
      var p: nat :| Shows(c, s, n, op, k, p) && !Buried(c, s, n, op, k, p, from);
      UnburiedRead(c, s, n, op, k, from, p);
      assert ReadAt(t, k, Later(p, from)) != None;
    }
  }

  /** No archived version of k, undeleted and past the entry's index, outlives the entry. */
  ghost predicate NoneAbove(c: Config, s: State, n: nat, k: Key) {
    forall p: nat :: n < p && Version(k, p) in s.hist && !s.hist[Version(k, p)].deleted ==> Version(k, p) in Pruned(c, s, n)
  }

  /**
   A removal whose tombstone is kept is seen by every read from its index on
   if and only if neither the removed record nor an archived version that
   outlives the entry has a revision above that index.
   */
  lemma RemovalSettlesIff(c: Config, s: State, n: nat, op: Op, k: Key)
    requires Stamped(s) && Removes(c, s, op, k) && CutoffAfter(c, s, n) <= n && Version(k, n) !in Pruned(c, s, n)
    ensures Current(Apply(c, s, n, op), k, n) <==> s.latest[k].rev <= n && NoneAbove(c, s, n, k)
  {
    CurrentIff(c, s, n, op, k, n);
    if s.latest[k].rev <= n && NoneAbove(c, s, n, k) {
      forall p: nat | Shows(c, s, n, op, k, p) ensures Buried(c, s, n, op, k, p, n) { RemovalBuries(c, s, n, op, k, p); }
    } else {
      var p := ShownAbove(c, s, n, op, k);
      assert Shows(c, s, n, op, k, p) && !Buried(c, s, n, op, k, p, n);
    }
  }

  lemma ShownAbove(c: Config, s: State, n: nat, op: Op, k: Key) returns (p: nat)
    requires Removes(c, s, op, k) && CutoffAfter(c, s, n) <= n && !(s.latest[k].rev <= n && NoneAbove(c, s, n, k))
    ensures n < p && Shows(c, s, n, op, k, p)
  {
    if n < s.latest[k].rev {
      RemovedStays(c, s, n, op, k);
      p := s.latest[k].rev;
    } else {
      p :| n < p && Version(k, p) in s.hist && !s.hist[Version(k, p)].deleted && Version(k, p) !in Pruned(c, s, n);
      BetweenLeft(c, s, n, op, k, p);
    }
  }

  lemma RemovalBuries(c: Config, s: State, n: nat, op: Op, k: Key, p: nat)
    requires Removes(c, s, op, k) && Version(k, n) !in Pruned(c, s, n)
    requires s.latest[k].rev <= n && NoneAbove(c, s, n, k) && Shows(c, s, n, op, k, p)
    ensures Buried(c, s, n, op, k, p, n)
  {
    RemovalEntombs(c, s, n, op, k);
    assert HistLeft(c, s, n, op, Version(k, n)) == Some(Tombstone(n));
    assert p < n;
  }

  /** A record removed below its own revision is archived above the tombstone. */
  lemma RemovedStays(c: Config, s: State, n: nat, op: Op, k: Key)
    requires Removes(c, s, op, k) && CutoffAfter(c, s, n) <= n < s.latest[k].rev
    ensures Shows(c, s, n, op, k, s.latest[k].rev)
  {
    assert Version(k, s.latest[k].rev) !in Pruned(c, s, n);
  }
}
