/**
 Versioned reads. The history namespace holds only superseded versions and is
 pruned from inside Apply; a read at revision r must nevertheless see exactly
 the state the group had once every entry up to r, and nothing later, applied.
 */
module Mvcc {
  import opened Bytes
  import opened Layout
  import opened Kv

  // --- resolving a read ---------------------------------------------------------

  /** The newest archived revision of k at or below r. */
  function NewestAt(h: map<Version, HistVersion>, k: Key, r: nat): (found: Option<nat>)
    ensures found.Some? ==> found.value <= r && Version(k, found.value) in h
    ensures forall p: nat :: p <= r && Version(k, p) in h ==> found.Some? && p <= found.value
  {
    if Version(k, r) in h then Some(r)
    else if r == 0 then None
    else NewestAt(h, k, r - 1)
  }

  function HistRead(h: map<Version, HistVersion>, k: Key, r: nat): Option<Record> {
    var found := NewestAt(h, k, r);
    if found.None? then None
    else
      var hv := h[Version(k, found.value)];
      if hv.deleted then None else Some(Record(hv.rev, hv.value, hv.blob))
  }

  /** The record of k as of revision r. */
  function ReadAt(s: State, k: Key, r: nat): Option<Record> {
    if k in s.latest && s.latest[k].rev <= r then Some(s.latest[k])
    else HistRead(s.hist, k, r)
  }

  /** Only archived versions at or below r matter to a read at r. */
  lemma HistReadLocal(g: map<Version, HistVersion>, h: map<Version, HistVersion>, k: Key, r: nat)
    requires forall p: nat {:trigger Version(k, p)} :: p <= r ==>
      (Version(k, p) in g <==> Version(k, p) in h) && (Version(k, p) in g ==> g[Version(k, p)] == h[Version(k, p)])
    ensures HistRead(g, k, r) == HistRead(h, k, r)
  {
    var a, b := NewestAt(g, k, r), NewestAt(h, k, r);
    if a.Some? { assert Version(k, a.value) in h; }
    if b.Some? { assert Version(k, b.value) in g; }
  }

  // --- what a write list does to one key ------------------------------------------

  function LastWrite(ws: seq<TxWrite>, k: Key): Option<TxWrite>
    decreases |ws|
  {
    if ws == [] then None
    else if ws[|ws| - 1].key == k then Some(ws[|ws| - 1])
    else LastWrite(ws[..|ws| - 1], k)
  }

  predicate DeletedIn(ws: seq<TxWrite>, k: Key)
    decreases |ws|
  {
    ws != [] && ((ws[|ws| - 1].key == k && ws[|ws| - 1].delete) || DeletedIn(ws[..|ws| - 1], k))
  }

  /** The record a write list at revision n leaves under k: the last write wins. */
  function After(db: State, n: nat, ws: seq<TxWrite>, k: Key): Option<Record> {
    var w := LastWrite(ws, k);
    if w.None? then Lookup(db.latest, k)
    else if w.value.delete then None
    else Some(Record(n, w.value.value, w.value.blob))
  }

  /**
   A write list at revision n leaves a tombstone under k. Where the live record
   already carries revision n, archiving and tombstone share one history key
   and the last write decides.
   */
  predicate Entombs(db: State, n: nat, ws: seq<TxWrite>, k: Key) {
    && k in db.latest
    && if db.latest[k].rev == n then LastWrite(ws, k).Some? && LastWrite(ws, k).value.delete else DeletedIn(ws, k)
  }

  /** The history entry a write list at revision n leaves for v. */
  function HistAfter(db: State, n: nat, ws: seq<TxWrite>, v: Version): Option<HistVersion> {
    if v.rev == n && Entombs(db, n, ws, v.key) then Some(Tombstone(n))
    else if v.key in db.latest && v.rev == db.latest[v.key].rev && LastWrite(ws, v.key).Some? then Some(Archived(db.latest[v.key]))
    else if v in db.hist then Some(db.hist[v]) else None
  }

  lemma {:induction false} StageLatest(db: State, n: nat, ws: seq<TxWrite>, k: Key)
    ensures Lookup(Stage(db, n, ws).latest, k) == After(db, n, ws, k)
    decreases |ws|
  {
    if ws != [] { StageLatest(db, n, ws[..|ws| - 1], k); }
  }

  lemma {:induction false} StageHist(db: State, n: nat, ws: seq<TxWrite>, v: Version)
    ensures (if v in Stage(db, n, ws).hist then Some(Stage(db, n, ws).hist[v]) else None) == HistAfter(db, n, ws, v)
    decreases |ws|
  {
    if ws != [] { StageHist(db, n, ws[..|ws| - 1], v); }
  }

  lemma {:induction false} StageFrame(db: State, n: nat, ws: seq<TxWrite>)
    ensures var t := Stage(db, n, ws); t == db.(latest := t.latest, hist := t.hist)
    decreases |ws|
  {
    if ws != [] { StageFrame(db, n, ws[..|ws| - 1]); }
  }

  // --- one entry ------------------------------------------------------------------

  /** The writes an entry performs: none when it is rejected. */
  function Performed(c: Config, s: State, op: Op): seq<TxWrite> {
    if Rejection(c, s, op).Some? then [] else WritesOf(s, op)
  }

  ghost function Pruned(c: Config, s: State, n: nat): set<Version> {
    if NewCutoff(c, s.cutoff, n).Some? then Prune(s, NewCutoff(c, s.cutoff, n).value) else {}
  }

  lemma AcceptedShape(s: State, n: nat, op: Op)
    requires !op.CopyIn?
    ensures var t, u := Accepted(s, n, op), Stage(s, n, WritesOf(s, op));
            && t.latest == u.latest
            && t.hist == u.hist
            && t.cutoff == s.cutoff
            && t.rev == (if Bumps(op) then n else s.rev)
            && (WritesOf(s, op) != [] ==> Bumps(op))
  {
    var ws := WritesOf(s, op);
    StageFrame(s, n, ws);
  }

  lemma ApplyOpShape(c: Config, s: State, n: nat, op: Op)
    requires !op.CopyIn?
    ensures var t, u := ApplyOp(c, s, n, op), Stage(s, n, Performed(c, s, op));
            && t.latest == u.latest
            && t.hist == u.hist
            && t.cutoff == s.cutoff
            && (t.rev == n || t.rev == s.rev)
            && (Performed(c, s, op) != [] ==> t.rev == n)
  {
    var rejected := Rejection(c, s, op).Some?;
    if !rejected { AcceptedShape(s, n, op); }
  }

  /** Garbage collection touches the history and the horizon, nothing else. */
  lemma ApplyPrunes(c: Config, s: State, n: nat, op: Op)
    ensures var t := ApplyOp(c, s, n, op);
            Apply(c, s, n, op) == t.(hist := t.hist - Pruned(c, s, n), cutoff := if NewCutoff(c, s.cutoff, n).Some? then CutoffAfter(c, s, n) else t.cutoff)
  {
    var h := ApplyOp(c, s, n, op).hist;
    assert h - {} == h;
  }

  lemma ApplyShape(c: Config, s: State, n: nat, op: Op)
    requires !op.CopyIn?
    ensures var t, u := Apply(c, s, n, op), Stage(s, n, Performed(c, s, op));
            && t.latest == u.latest
            && t.hist == u.hist - Pruned(c, s, n)
            && t.cutoff == CutoffAfter(c, s, n)
            && (t.rev == n || t.rev == s.rev)
            && (Performed(c, s, op) != [] ==> t.rev == n)
  {
    ApplyOpShape(c, s, n, op);
    ApplyPrunes(c, s, n, op);
  }

  /** Well-formed states: every state a log without copy_in reaches. */
  ghost predicate Inv(s: State) {
    && (forall k :: k in s.latest ==> 1 <= s.latest[k].rev <= s.rev)
    && (forall v :: v in s.hist ==> s.hist[v].rev == v.rev <= s.rev)
    && (forall v :: v in s.hist && v.key in s.latest ==> v.rev <= s.latest[v.key].rev)
    && (forall v :: v in s.hist && v.key !in s.latest && Newest(s, v) ==> s.hist[v].deleted)
  }

  /** Garbage collection hides nothing from a read at or above the cutoff. */
  lemma PruneKeepsReads(s: State, cutoff: nat, k: Key, r: nat)
    requires cutoff <= r
    requires k in s.latest ==> r < s.latest[k].rev
    ensures HistRead(s.hist - Prune(s, cutoff), k, r) == HistRead(s.hist, k, r)
  {
    var h := s.hist - Prune(s, cutoff);
    var a := NewestAt(s.hist, k, r);
    if a.Some? && Version(k, a.value) !in h {
      // Everything older than a pruned newest version is pruned with it.
      var v := Version(k, a.value);
      assert Prunable(s, cutoff, v);
      assert v.rev <= cutoff && s.hist[v].deleted;
      forall p: nat | p <= r && Version(k, p) in s.hist ensures Version(k, p) !in h {
        assert p == v.rev || Prunable(s, cutoff, Version(k, p));
      }
    } else if a.Some? {
      assert NewestAt(h, k, r) == a;
    }
  }

  /**
   The one way an entry can lose a version it should keep. The entry
   overwrites a live record whose own revision already names a history entry,
   so archiving lands on that entry, and the same entry's garbage collection
   prunes it by what it held before.
   */
  ghost predicate Clobbered(c: Config, s: State, n: nat, op: Op, k: Key) {
    && LastWrite(Performed(c, s, op), k).Some?
    && k in s.latest
    && Version(k, s.latest[k].rev) in s.hist
    && NewCutoff(c, s.cutoff, n).Some?
    && s.latest[k].rev <= NewCutoff(c, s.cutoff, n).value
  }

  lemma EntryHist(c: Config, s: State, n: nat, op: Op, v: Version)
    requires !op.CopyIn?
    ensures var t := Apply(c, s, n, op);
            (if v in t.hist then Some(t.hist[v]) else None) ==
            if v in Pruned(c, s, n) then None else HistAfter(s, n, Performed(c, s, op), v)
  {
    ApplyShape(c, s, n, op);
    StageHist(s, n, Performed(c, s, op), v);
  }

  lemma EntryLatest(c: Config, s: State, n: nat, op: Op, k: Key)
    requires !op.CopyIn?
    ensures Lookup(Apply(c, s, n, op).latest, k) == After(s, n, Performed(c, s, op), k)
  {
    ApplyShape(c, s, n, op);
    StageLatest(s, n, Performed(c, s, op), k);
  }

  /** Below a key's live revision an entry changes the history by pruning alone. */
  lemma UnarchivedHist(c: Config, s: State, n: nat, op: Op, k: Key, r: nat)
    requires Inv(s) && s.rev < n && !op.CopyIn? && r < n
    requires k in s.latest ==> r < s.latest[k].rev
    ensures HistRead(Apply(c, s, n, op).hist, k, r) == HistRead(s.hist - Pruned(c, s, n), k, r)
  {
    var t, h := Apply(c, s, n, op).hist, s.hist - Pruned(c, s, n);
    forall p: nat {:trigger Version(k, p)} | p <= r
      ensures (Version(k, p) in t <==> Version(k, p) in h) && (Version(k, p) in h ==> t[Version(k, p)] == h[Version(k, p)])
    {
      EntryHist(c, s, n, op, Version(k, p));
    }
    HistReadLocal(t, h, k, r);
  }

  lemma PrunedReads(c: Config, s: State, n: nat, k: Key, r: nat)
    requires CutoffAfter(c, s, n) <= r && (k in s.latest ==> r < s.latest[k].rev)
    ensures HistRead(s.hist - Pruned(c, s, n), k, r) == HistRead(s.hist, k, r)
  {
    if NewCutoff(c, s.cutoff, n).Some? {
      PruneKeepsReads(s, NewCutoff(c, s.cutoff, n).value, k, r);
    } else {
      assert s.hist - {} == s.hist;
    }
  }

  /** Reads the entry does not archive for: only garbage collection acts. */
  lemma UnarchivedRead(c: Config, s: State, n: nat, op: Op, k: Key, r: nat)
    requires Inv(s) && s.rev < n && !op.CopyIn?
    requires CutoffAfter(c, s, n) <= r < n
    requires k in s.latest ==> r < s.latest[k].rev || LastWrite(Performed(c, s, op), k).None?
    ensures ReadAt(Apply(c, s, n, op), k, r) == ReadAt(s, k, r)
  {
    EntryLatest(c, s, n, op, k);
    if !(k in s.latest && s.latest[k].rev <= r) {
      UnarchivedHist(c, s, n, op, k, r);
      PrunedReads(c, s, n, k, r);
    }
  }

  /** Reads of a record the entry supersedes: served from the archive. */
  lemma ArchivedRead(c: Config, s: State, n: nat, op: Op, k: Key, r: nat)
    requires Inv(s) && s.rev < n && !op.CopyIn?
    requires CutoffAfter(c, s, n) <= r < n
    requires k in s.latest && s.latest[k].rev <= r && LastWrite(Performed(c, s, op), k).Some?
    ensures ReadAt(Apply(c, s, n, op), k, r) == (if Clobbered(c, s, n, op, k) then None else Some(s.latest[k]))
  {
    var t := Apply(c, s, n, op);
    EntryLatest(c, s, n, op, k);
    if Clobbered(c, s, n, op, k) {
      forall p: nat {:trigger Version(k, p)} | p <= r ensures Version(k, p) !in t.hist { ClobberedGone(c, s, n, op, k, p); }
    } else {
      ArchivedNewest(c, s, n, op, k, r);
    }
  }

  /** A clobbering entry leaves nothing archived of the key before itself. */
  lemma ClobberedGone(c: Config, s: State, n: nat, op: Op, k: Key, p: nat)
    requires Inv(s) && s.rev < n && !op.CopyIn? && p < n && Clobbered(c, s, n, op, k)
    ensures Version(k, p) !in Apply(c, s, n, op).hist
  {
    var was, cutoff := Version(k, s.latest[k].rev), NewCutoff(c, s.cutoff, n).value;
    EntryHist(c, s, n, op, Version(k, p));
    assert Newest(s, was) && Prunable(s, cutoff, was);
    assert Version(k, p) in s.hist && p != was.rev ==> Prunable(s, cutoff, Version(k, p));
  }

  /** Otherwise the superseded record is the newest archived version. */
  lemma ArchivedNewest(c: Config, s: State, n: nat, op: Op, k: Key, r: nat)
    requires Inv(s) && s.rev < n && !op.CopyIn? && CutoffAfter(c, s, n) <= r < n
    requires k in s.latest && s.latest[k].rev <= r && LastWrite(Performed(c, s, op), k).Some? && !Clobbered(c, s, n, op, k)
    ensures HistRead(Apply(c, s, n, op).hist, k, r) == Some(s.latest[k])
  {
    var h, was := Apply(c, s, n, op).hist, Version(k, s.latest[k].rev);
    EntryHist(c, s, n, op, was);
    assert was in h && h[was] == Archived(s.latest[k]);
    var found := NewestAt(h, k, r);
    EntryHist(c, s, n, op, Version(k, found.value));
    assert found == Some(was.rev);
  }

  /**
   Exactly when one entry leaves every earlier read of a key alone: at every
   readable revision before the entry, a read of k is unchanged if and only
   if the entry does not clobber k.
   */
  lemma EntryKeepsReads(c: Config, s: State, n: nat, op: Op, k: Key, r: nat)
    requires Inv(s) && s.rev < n && !op.CopyIn?
    requires CutoffAfter(c, s, n) <= r < n
    ensures ReadAt(Apply(c, s, n, op), k, r) == ReadAt(s, k, r) <==> !Clobbered(c, s, n, op, k)
  {
    if k in s.latest && s.latest[k].rev <= r && LastWrite(Performed(c, s, op), k).Some? {
      ArchivedRead(c, s, n, op, k, r);
    } else {
      UnarchivedRead(c, s, n, op, k, r);
    }
  }

  lemma EntryKeepsInv(c: Config, s: State, n: nat, op: Op)
    requires Inv(s) && s.rev < n && !op.CopyIn?
    ensures Inv(Apply(c, s, n, op))
  {
    var t, ws := Apply(c, s, n, op), Performed(c, s, op);
    ApplyShape(c, s, n, op);
    forall k | k in t.latest ensures 1 <= t.latest[k].rev <= t.rev {
      EntryLatest(c, s, n, op, k);
      LastWriteIn(ws, k);
    }
    forall v | v in t.hist
      ensures t.hist[v].rev == v.rev <= t.rev
      ensures v.key in t.latest ==> v.rev <= t.latest[v.key].rev
      ensures v.key !in t.latest && Newest(t, v) ==> t.hist[v].deleted
    {
      EntryVersionInv(c, s, n, op, v);
    }
  }

  lemma EntryVersionInv(c: Config, s: State, n: nat, op: Op, v: Version)
    requires Inv(s) && s.rev < n && !op.CopyIn?
    requires v in Apply(c, s, n, op).hist
    ensures var t := Apply(c, s, n, op);
            && t.hist[v].rev == v.rev <= t.rev
            && (v.key in t.latest ==> v.rev <= t.latest[v.key].rev)
            && (v.key !in t.latest && Newest(t, v) ==> t.hist[v].deleted)
  {
    var t, ws := Apply(c, s, n, op), Performed(c, s, op);
    ApplyShape(c, s, n, op);
    EntryHist(c, s, n, op, v);
    EntryLatest(c, s, n, op, v.key);
    LastWriteIn(ws, v.key);
    DeletedInWritten(ws, v.key);
    if v.key !in t.latest && Newest(t, v) {
      if v.key in s.latest {
        EntryHist(c, s, n, op, Version(v.key, n));
        assert Version(v.key, n) in t.hist;
      } else if !Newest(s, v) {
        // A newer dead version survives whenever an older one does.
        NewestSurvives(c, s, n, op, v);
      }
    }
  }

  lemma {:induction false} LastWriteIn(ws: seq<TxWrite>, k: Key)
    ensures LastWrite(ws, k).Some? ==> ws != [] && (LastWrite(ws, k).value.delete ==> DeletedIn(ws, k))
    decreases |ws|
  {
    if ws != [] { LastWriteIn(ws[..|ws| - 1], k); }
  }

  lemma {:induction false} DeletedInWritten(ws: seq<TxWrite>, k: Key)
    ensures DeletedIn(ws, k) ==> LastWrite(ws, k).Some?
    decreases |ws|
  {
    if ws != [] { DeletedInWritten(ws[..|ws| - 1], k); }
  }

  /** The newest version of a dead key cannot be pruned before an older one. */
  lemma NewestSurvives(c: Config, s: State, n: nat, op: Op, v: Version)
    requires Inv(s) && s.rev < n && !op.CopyIn?
    requires v.key !in s.latest && v in s.hist && v !in Pruned(c, s, n) && !Newest(s, v)
    ensures !Newest(Apply(c, s, n, op), v)
  {
    var t := Apply(c, s, n, op);
    var top := NewestAt(s.hist, v.key, s.rev).value;
    var w := Version(v.key, top);
    assert Newest(s, w) && v.rev < w.rev;
    EntryHist(c, s, n, op, w);
    if NewCutoff(c, s.cutoff, n).Some? {
      var cutoff := NewCutoff(c, s.cutoff, n).value;
      assert !Prunable(s, cutoff, v);
      assert cutoff < w.rev;
    }
    assert w in t.hist;
  }
}
