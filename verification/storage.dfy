/**
 The raft log of one group in the store: a namespace of entries keyed by
 index, a compaction point, and the in-memory copies of both. Under raft's
 call contract it is a plain sequence with a base offset.
 */
module Storage {
  import opened Bytes
  import opened Layout

  datatype Entry = Entry(index: nat, term: nat, data: seq<Byte>)

  /** The compaction point; entries at or below `index` are gone. */
  datatype Meta = Meta(index: nat, term: nat)

  /** The plain log this storage stands for: `items[k]` has index base + 1 + k. */
  datatype Log = Log(base: Meta, items: seq<Entry>)

  datatype Answer<T> = Ok(value: T) | Compacted | Unavailable | OutOfBound

  function LastOf(log: Log): nat {
    log.base.index + |log.items|
  }

  // --- the operations on the plain log ------------------------------------------------------

  /** Raft's contract for new entries: contiguous, above the base, no gap. */
  predicate Appendable(log: Log, es: seq<Entry>) {
    && (forall k :: 0 <= k < |es| ==> es[k].index == es[0].index + k)
    && (es != [] ==> log.base.index < es[0].index <= LastOf(log) + 1)
  }

  function Appended(log: Log, es: seq<Entry>): Log
    requires Appendable(log, es)
  {
    if es == [] then log else Log(log.base, log.items[..es[0].index - log.base.index - 1] + es)
  }

  function CompactedTo(log: Log, m: Meta): Log {
    if m.index < log.base.index then log
    else if m.index <= LastOf(log) then Log(m, log.items[m.index - log.base.index..])
    else Log(m, [])
  }

  /** The longest non-empty run of entries whose size stays within the limit. */
  function Total(size: Entry -> nat, es: seq<Entry>): nat
    decreases |es|
  {
    if es == [] then 0 else Total(size, es[..|es| - 1]) + size(es[|es| - 1])
  }

  lemma TotalStep(size: Entry -> nat, es: seq<Entry>, k: nat)
    requires k < |es|
    ensures Total(size, es[..k + 1]) == Total(size, es[..k]) + size(es[k])
    ensures es[..k + 1] == es[..k] + [es[k]]
  {
    assert es[..k + 1][..k] == es[..k];
  }

  ghost predicate IsBounded(size: Entry -> nat, out: seq<Entry>, window: seq<Entry>, maxSize: nat) {
    && |out| <= |window| && out == window[..|out|]
    && (window != [] ==> out != [])
    && (|out| > 1 ==> Total(size, out) <= maxSize)
    && (|out| < |window| ==> Total(size, window[..|out| + 1]) > maxSize)
  }

  function TermOf(log: Log, i: nat): Answer<nat> {
    if i == log.base.index then Ok(log.base.term)
    else if i < log.base.index then Compacted
    else if i > LastOf(log) then Unavailable
    else Ok(log.items[i - log.base.index - 1].term)
  }

  /** The entry a log holds at an index, if it does. */
  function EntryAt(log: Log, i: nat): Option<Entry> {
    if log.base.index < i <= LastOf(log) then Some(log.items[i - log.base.index - 1]) else None
  }

  /** What truncation up to m leaves, index by index. */
  ghost predicate TruncatedAt(was: Log, m: Meta, log: Log) {
    if m.index < was.base.index then log == was
    else
      && (forall i: nat {:trigger EntryAt(log, i)} :: m.index < i ==> EntryAt(log, i) == EntryAt(was, i) && TermOf(log, i) == TermOf(was, i))
      && (forall i: nat {:trigger TermOf(log, i)} :: i < m.index ==> TermOf(log, i) == Compacted && EntryAt(log, i).None?)
      && TermOf(log, m.index) == Ok(m.term) && EntryAt(log, m.index).None?
      && LastOf(log) == (if LastOf(was) < m.index then m.index else LastOf(was)) && log.base == m
  }

  lemma CompactedAbove(was: Log, m: Meta, i: nat)
    requires was.base.index <= m.index < i
    ensures EntryAt(CompactedTo(was, m), i) == EntryAt(was, i) && TermOf(CompactedTo(was, m), i) == TermOf(was, i)
  {
    if i <= LastOf(was) { assert CompactedTo(was, m).items[i - m.index - 1] == was.items[i - was.base.index - 1]; }
  }

  lemma CompactedShape(was: Log, m: Meta)
    requires was.base.index <= m.index
    ensures var log := CompactedTo(was, m); log.base == m && LastOf(log) == if LastOf(was) < m.index then m.index else LastOf(was)
  {
  }

  lemma UpToBase(log: Log, i: nat)
    requires i <= log.base.index
    ensures EntryAt(log, i).None? && TermOf(log, i) == if i == log.base.index then Ok(log.base.term) else Compacted
  {
  }

  lemma CompactedIs(was: Log, m: Meta)
    ensures TruncatedAt(was, m, CompactedTo(was, m))
  {
    if was.base.index <= m.index {
      CompactedShape(was, m);
      UpToBase(CompactedTo(was, m), m.index);
      forall i: nat | i < m.index ensures TermOf(CompactedTo(was, m), i) == Compacted && EntryAt(CompactedTo(was, m), i).None? { UpToBase(CompactedTo(was, m), i); }
      forall i: nat | m.index < i
        ensures EntryAt(CompactedTo(was, m), i) == EntryAt(was, i) && TermOf(CompactedTo(was, m), i) == TermOf(was, i)
      {
        CompactedAbove(was, m, i);
      }
    }
  }

  /** What appending leaves, index by index: the new entries from the first on, what was there below. */
  ghost predicate ReplacedFrom(was: Log, es: seq<Entry>, log: Log) {
    if es == [] then log == was
    else
      && log.base == was.base && LastOf(log) == es[|es| - 1].index
      && (forall k {:trigger es[k]} :: 0 <= k < |es| ==> EntryAt(log, es[k].index) == Some(es[k]) && TermOf(log, es[k].index) == Ok(es[k].term))
      && (forall i: nat {:trigger EntryAt(log, i)} :: i < es[0].index ==> EntryAt(log, i) == EntryAt(was, i) && TermOf(log, i) == TermOf(was, i))
  }

  lemma AppendedIs(was: Log, es: seq<Entry>)
    requires Appendable(was, es)
    ensures ReplacedFrom(was, es, Appended(was, es))
  {
    if es != [] {
      var log := Appended(was, es);
      var kept := es[0].index - was.base.index - 1;
      assert es[|es| - 1].index == es[0].index + |es| - 1 && LastOf(log) == es[|es| - 1].index;
      forall k | 0 <= k < |es| ensures EntryAt(log, es[k].index) == Some(es[k]) && TermOf(log, es[k].index) == Ok(es[k].term) {
        assert log.items[kept + k] == es[k];
      }
      forall i: nat | i < es[0].index ensures EntryAt(log, i) == EntryAt(was, i) && TermOf(log, i) == TermOf(was, i) { KeptBelow(was, es, i); }
    }
  }

  lemma KeptBelow(was: Log, es: seq<Entry>, i: nat)
    requires Appendable(was, es) && es != [] && i < es[0].index
    ensures EntryAt(Appended(was, es), i) == EntryAt(was, i) && TermOf(Appended(was, es), i) == TermOf(was, i)
  {
    if was.base.index < i { assert Appended(was, es).items[i - was.base.index - 1] == was.items[i - was.base.index - 1]; }
  }

  // --- the stored form ------------------------------------------------------------------------

  /** Stored entries are exactly those above the compaction point. */
  ghost predicate Stores(db: map<nat, Entry>, meta: Meta, last: nat) {
    && meta.index <= last
    && (forall i :: i in db <==> meta.index < i <= last)
    && (forall i :: i in db ==> db[i].index == i)
  }

  ghost function LogOf(db: map<nat, Entry>, meta: Meta, last: nat): Log
    requires Stores(db, meta, last)
  {
    Log(meta, seq(last - meta.index, k requires 0 <= k < last - meta.index => db[meta.index + 1 + k]))
  }

  /** What is stored determines the last index, so reopening recovers it. */
  lemma LastUnique(db: map<nat, Entry>, meta: Meta, a: nat, b: nat)
    requires Stores(db, meta, a) && Stores(db, meta, b)
    ensures a == b
  {
    assert a == meta.index || a in db;
    assert b == meta.index || b in db;
  }

  /** The highest stored index, as the backwards scan finds it. */
  method LastKey(db: map<nat, Entry>) returns (r: Option<nat>)
    ensures r.None? <==> db == map[]
    ensures r.Some? ==> r.value in db && forall i :: i in db ==> i <= r.value
  {
    var todo := db.Keys;
    r := None;
    while todo != {}
      invariant todo <= db.Keys
      invariant r.None? <==> todo == db.Keys
      invariant r.Some? ==> r.value in db && forall i :: i in db && i !in todo ==> i <= r.value
    {
      var i :| i in todo;
      if r.None? || r.value < i { r := Some(i); }
      todo := todo - {i};
    }
  }

  /** The iterator over [lo, hi), stopping before the size limit is passed. */
  method ScanEntries(size: Entry -> nat, db: map<nat, Entry>, lo: nat, hi: nat, maxSize: nat, ghost window: seq<Entry>) returns (out: seq<Entry>)
    requires lo <= hi && |window| == hi - lo && forall i :: lo <= i < hi ==> i in db && db[i] == window[i - lo]
    ensures IsBounded(size, out, window, maxSize)
  {
    out := [];
    var total, i := 0, lo;
    while i < hi
      invariant lo <= i <= hi && |out| == i - lo && out == window[..|out|]
      invariant total == Total(size, out) && (|out| > 1 ==> total <= maxSize)
    {
      var e := db[i];
      TotalStep(size, window, i - lo);
      total := total + size(e);
      if |out| > 0 && total > maxSize { break; }
      out := out + [e];
      i := i + 1;
    }
  }

  class Storage {
    var db: map<nat, Entry>
    var saved: Meta
    var meta: Meta
    var last: nat

    ghost predicate Valid()
      reads this
    {
      saved == meta && Stores(db, meta, last)
    }

    ghost function Contents(): Log
      requires Valid()
      reads this
    {
      LogOf(db, meta, last)
    }

    /** Reopening what any storage left behind gives the same log. */
    constructor (db: map<nat, Entry>, saved: Meta, ghost was: nat)
      requires Stores(db, saved, was)
      ensures Valid() && this.db == db && this.saved == saved
      ensures Contents() == LogOf(db, saved, was)
    {
      this.db, this.saved, this.meta := db, saved, saved;
      var top := LastKey(db);
      this.last := if top.Some? then top.value else saved.index;
      assert top.Some? ==> top.value == was by { if top.Some? && saved.index < was { assert was in db; } }
      assert top.None? ==> was == saved.index by { if saved.index < was { assert was in db; } }
      new;
      LastUnique(db, saved, last, was);
    }

    method Append(es: seq<Entry>)
      requires Valid() && Appendable(Contents(), es)
      modifies this`db, this`last
      ensures Valid() && Contents() == Appended(old(Contents()), es)
      ensures ReplacedFrom(old(Contents()), es, Contents())
    {
      AppendedIs(Contents(), es);
      ghost var before := db;
      for k := 0 to |es|
        invariant saved == meta && meta == old(meta) && last == old(last)
        invariant db == Overwritten(before, es[..k])
      {
        OverwriteStep(before, es, k);
        db := db[es[k].index := es[k]];
      }
      assert es[..|es|] == es;
      AppendStores(before, meta, last, es);
      if |es| > 0 {
        var newLast := es[|es| - 1].index;
        if newLast < last {
          db := map i | i in db && !(newLast < i <= last) :: db[i];
        }
        assert db == Truncated(Overwritten(before, es), newLast, last);
        last := newLast;
      }
    }

    method Entries(size: Entry -> nat, lo: nat, hi: nat, maxSize: nat) returns (r: Answer<seq<Entry>>)
      requires Valid() && lo <= hi
      ensures if lo <= Contents().base.index then r.Compacted?
              else if hi > LastOf(Contents()) + 1 then r.OutOfBound?
              else r.Ok? && IsBounded(size, r.value, Contents().items[lo - Contents().base.index - 1..hi - Contents().base.index - 1], maxSize)
    {
      if lo <= meta.index { return Compacted; }
      if hi > last + 1 { return OutOfBound; }
      var out := ScanEntries(size, db, lo, hi, maxSize, Contents().items[lo - meta.index - 1..hi - meta.index - 1]);
      r := Ok(out);
    }

    method Term(i: nat) returns (r: Answer<nat>)
      requires Valid()
      ensures r == TermOf(Contents(), i)
    {
      if i == meta.index { return Ok(meta.term); }
      if i < meta.index { return Compacted; }
      if i > last { return Unavailable; }
      r := Ok(db[i].term);
    }

    method FirstIndex() returns (i: nat)
      requires Valid()
      ensures i == Contents().base.index + 1
    {
      i := meta.index + 1;
    }

    method LastIndex() returns (i: nat)
      requires Valid()
      ensures i == LastOf(Contents())
    {
      i := last;
    }

    /** Log truncation at an applied index: nothing above it moves. */
    method CompactStreaming(m: Meta)
      requires Valid()
      modifies this
      ensures Valid() && Contents() == CompactedTo(old(Contents()), m)
      ensures TruncatedAt(old(Contents()), m, Contents())
    {
      CompactedIs(Contents(), m);
      if m.index < meta.index { return; }
      saved := m;
      db := map i | i in db && i > m.index :: db[i];
      meta := m;
      if last < m.index { last := m.index; }
      assert Contents().items == CompactedTo(old(Contents()), m).items;
    }

    /** After an install the stored log is empty at the snapshot's index. */
    method NoteInstalled(m: Meta)
      requires saved == m && db == map[]
      modifies this`meta, this`last
      ensures Valid() && Contents() == Log(m, [])
    {
      meta := m;
      last := m.index;
      assert Contents().items == [];
    }

    /** A legacy snapshot replaces the log, unless it is not newer. */
    method ApplyIncomingSnapshot(m: Meta)
      requires Valid()
      modifies this
      ensures Valid() && Contents() == if m.index <= old(Contents()).base.index then old(Contents()) else Log(m, [])
    {
      if m.index <= meta.index { return; }
      saved, db := m, map[];
      meta, last := m, m.index;
      assert Contents().items == [];
    }
  }

  // --- overwriting a stretch of the namespace ---------------------------------------------------

  function Overwritten(db: map<nat, Entry>, es: seq<Entry>): map<nat, Entry>
    decreases |es|
  {
    if es == [] then db else Overwritten(db, es[..|es| - 1])[es[|es| - 1].index := es[|es| - 1]]
  }

  lemma OverwriteStep(db: map<nat, Entry>, es: seq<Entry>, k: nat)
    requires k < |es|
    ensures Overwritten(db, es[..k + 1]) == Overwritten(db, es[..k])[es[k].index := es[k]]
  {
    assert es[..k + 1][..k] == es[..k];
  }

  /** Stale entries past the new tail are cut off. */
  function Truncated(db: map<nat, Entry>, newLast: nat, last: nat): map<nat, Entry> {
    map i | i in db && !(newLast < i <= last) :: db[i]
  }

  ghost predicate Spliced(db: map<nat, Entry>, kept: map<nat, Entry>, es: seq<Entry>)
    requires es != []
  {
    && (forall i :: i in kept <==> (i in db && i < es[0].index) || es[0].index <= i < es[0].index + |es|)
    && (forall i :: i in kept ==> if i < es[0].index then i in db && kept[i] == db[i] else i < es[0].index + |es| && kept[i] == es[i - es[0].index])
  }

  lemma SplicedLog(db: map<nat, Entry>, kept: map<nat, Entry>, meta: Meta, last: nat, es: seq<Entry>)
    requires Stores(db, meta, last) && es != [] && Appendable(LogOf(db, meta, last), es) && Spliced(db, kept, es)
    ensures Stores(kept, meta, es[|es| - 1].index)
    ensures LogOf(kept, meta, es[|es| - 1].index) == Appended(LogOf(db, meta, last), es)
  {
    var newLast := es[|es| - 1].index;
    assert newLast == es[0].index + |es| - 1;
    var a, b := LogOf(kept, meta, newLast).items, Appended(LogOf(db, meta, last), es).items;
    assert |a| == |b|;
    forall k | 0 <= k < |a| ensures a[k] == b[k] { assert a[k] == kept[meta.index + 1 + k]; }
  }

  lemma AppendStores(db: map<nat, Entry>, meta: Meta, last: nat, es: seq<Entry>)
    requires Stores(db, meta, last) && Appendable(LogOf(db, meta, last), es)
    ensures es == [] ==> Overwritten(db, es) == db
    ensures es != [] ==>
              var newLast := es[|es| - 1].index;
              var kept := Truncated(Overwritten(db, es), newLast, last);
              Stores(kept, meta, newLast) && LogOf(kept, meta, newLast) == Appended(LogOf(db, meta, last), es)
  {
    OverwrittenHolds(db, es);
    if es != [] {
      var kept := Truncated(Overwritten(db, es), es[|es| - 1].index, last);
      assert Spliced(db, kept, es);
      SplicedLog(db, kept, meta, last, es);
    }
  }

  lemma {:induction false} OverwrittenHolds(db: map<nat, Entry>, es: seq<Entry>)
    requires forall k :: 0 <= k < |es| ==> es[k].index == es[0].index + k
    ensures forall i :: i in Overwritten(db, es) <==> i in db || (es != [] && es[0].index <= i < es[0].index + |es|)
    ensures forall i :: i in Overwritten(db, es) ==>
              Overwritten(db, es)[i] == if es != [] && es[0].index <= i < es[0].index + |es| then es[i - es[0].index] else db[i]
    decreases |es|
  {
    if es != [] {
      var init := es[..|es| - 1];
      OverwrittenHolds(db, init);
    }
  }
}
