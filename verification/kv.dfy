/**
 The replicated key-value state machine of one raft group, as functions from
 one committed state to the next.

 A command is applied into a Pebble batch: everything it reads, including the
 record a write replaces, comes from the state committed before it. The staged
 state below is that committed state overlaid with the batch.
 */
module Kv {
  import opened Bytes
  import opened Layout

  type Value = seq<Byte>

  /** The stored form of one key. */
  datatype Record = Record(rev: nat, value: Value, blob: bool)

  /** One archived version, or the tombstone of a delete. */
  datatype HistVersion = HistVersion(rev: nat, value: Value, blob: bool, deleted: bool)

  /** One staged mutation of a transaction. */
  datatype TxWrite = TxWrite(key: Key, value: Value, delete: bool, blob: bool)

  /** A staged two-phase write: the blob stored under every key it writes. */
  datatype Intent = Intent(txid: Key, writes: seq<TxWrite>)

  /** The knobs every replica must share; a zero `maxValue` means no cap. */
  datatype Config = Config(maxValue: nat, gcEvery: nat, historyRevisions: nat)

  const DEFAULT_CONFIG := Config(0, 512, 4096)

  datatype State = State(
    latest: map<Key, Record>,
    hist: map<Version, HistVersion>,
    intents: map<Key, Intent>,
    rev: nat,
    cutoff: nat,
    freeze: Option<Range>)

  const EMPTY := State(map[], map[], map[], 0, 0, None)

  datatype Op =
    | Get(key: Key)
    | GetAt(key: Key, atRev: nat)
    | ListAt(prefix: Key, cursor: Key, limit: int, atRev: nat)
    | ListRange(range: Range, cursor: Key, limit: int)
    | Set(key: Key, value: Value, blob: bool)
    | Delete(key: Key)
    | DeleteRange(start: Key, end: Key)
    | TxApply(seen: map<Key, nat>, writes: seq<TxWrite>)
    | TxPrepare(txid: Key, seen: map<Key, nat>, writes: seq<TxWrite>)
    | TxCommit(txid: Key)
    | TxAbort(txid: Key)
    | FreezeRange(range: Range)
    | SplitCleanup(range: Range)
    | CopyIn(pairs: map<Key, Record>)
    | Unknown

  datatype Error = Conflict | ValueTooLarge | ShardSplitting | TxTooOld | UnknownOp

  datatype Entry = Entry(key: Key, record: Record)

  datatype Result =
    | Done
    | Written(rev: nat)
    | Rejected(error: Error)
    | Read(record: Option<Record>, shardRev: nat)
    | Page(entries: seq<Entry>, shardRev: nat)

  // --- reads of committed state -----------------------------------------------

  function Lookup<T>(m: map<Key, T>, k: Key): Option<T> {
    if k in m then Some(m[k]) else None
  }

  /** The revision a transaction records for a key; 0 encodes "absent". */
  function RevOf(s: State, k: Key): nat {
    if k in s.latest then s.latest[k].rev else 0
  }

  function ClampLimit(limit: int): (n: nat)
    ensures 1 <= n <= 10000
  {
    if limit <= 0 || limit > 10000 then 1000 else limit
  }

  // --- the split write-freeze ---------------------------------------------------

  predicate Frozen(s: State, k: Key) {
    s.freeze.Some? && s.freeze.value.Contains(k)
  }

  /** Whether [start, end) meets the freeze; an empty `end` is the empty range. */
  predicate FrozenOverlap(s: State, start: Key, end: Key) {
    && s.freeze.Some? && end != [] && Less(start, end)
    && Less(s.freeze.value.start, end)
    && (s.freeze.value.end == [] || Less(start, s.freeze.value.end))
  }

  predicate FrozenWrites(s: State, ws: seq<TxWrite>) {
    exists i :: 0 <= i < |ws| && Frozen(s, ws[i].key)
  }

  // --- staging writes -------------------------------------------------------------

  function Archived(rec: Record): HistVersion {
    HistVersion(rec.rev, rec.value, rec.blob, false)
  }

  function Tombstone(rev: nat): HistVersion {
    HistVersion(rev, [], false, true)
  }

  /** One put or delete staged at revision n, archiving what `db` committed. */
  function StageOne(db: State, staged: State, n: nat, w: TxWrite): State {
    var hist :=
      if w.key in db.latest
      then staged.hist[Version(w.key, db.latest[w.key].rev) := Archived(db.latest[w.key])]
      else staged.hist;
    if w.delete then
      staged.(latest := staged.latest - {w.key},
              hist := if w.key in db.latest then hist[Version(w.key, n) := Tombstone(n)] else hist)
    else
      staged.(latest := staged.latest[w.key := Record(n, w.value, w.blob)], hist := hist)
  }

  /** A write list staged in order against one committed state. */
  function Stage(db: State, n: nat, ws: seq<TxWrite>): State
    decreases |ws|
  {
    if ws == [] then db
    else StageOne(db, Stage(db, n, ws[..|ws| - 1]), n, ws[|ws| - 1])
  }

  function DeleteOf(k: Key): TxWrite {
    TxWrite(k, [], true, false)
  }

  function Deletes(keys: seq<Key>): (ws: seq<TxWrite>)
    ensures |ws| == |keys| && forall i :: 0 <= i < |ws| ==> ws[i] == DeleteOf(keys[i])
  {
    seq(|keys|, i requires 0 <= i < |keys| => DeleteOf(keys[i]))
  }

  // --- two-phase intents ------------------------------------------------------------

  function TxKeys(s: State, txid: Key): set<Key> {
    set k | k in s.intents && s.intents[k].txid == txid
  }

  /** The writes of a list of intents, concatenated in scan order. */
  function IntentWrites(intents: map<Key, Intent>, keys: seq<Key>): seq<TxWrite>
    requires forall k :: k in keys ==> k in intents
    decreases |keys|
  {
    if keys == [] then []
    else
      assert keys[|keys| - 1] in keys;
      IntentWrites(intents, keys[..|keys| - 1]) + intents[keys[|keys| - 1]].writes
  }

  /** The `seen` filter: of several writes to one key the first survives. */
  function FirstWins(ws: seq<TxWrite>): seq<TxWrite>
    decreases |ws|
  {
    if ws == [] then []
    else
      var rest, w := ws[..|ws| - 1], ws[|ws| - 1];
      if exists i :: 0 <= i < |rest| && rest[i].key == w.key then FirstWins(rest)
      else FirstWins(rest) + [w]
  }

  function CommitWrites(s: State, txid: Key): seq<TxWrite> {
    FirstWins(IntentWrites(s.intents, Sorted(TxKeys(s, txid))))
  }

  function WriteKeys(ws: seq<TxWrite>): set<Key> {
    set i | 0 <= i < |ws| :: ws[i].key
  }

  // --- acceptance -------------------------------------------------------------------

  predicate TooLarge(c: Config, v: Value) {
    c.maxValue > 0 && |v| > c.maxValue
  }

  /** Every read key still has the revision seen and carries no intent. */
  predicate ReadsValid(s: State, seen: map<Key, nat>) {
    forall k :: k in seen ==> RevOf(s, k) == seen[k] && k !in s.intents
  }

  /** The first write that cannot be staged, and why. */
  function BadWrite(c: Config, s: State, txid: Option<Key>, ws: seq<TxWrite>): Option<Error> {
    if ws == [] then None
    else if ws[0].key in s.intents && (txid.None? || s.intents[ws[0].key].txid != txid.value) then Some(Conflict)
    else if TooLarge(c, ws[0].value) then Some(ValueTooLarge)
    else BadWrite(c, s, txid, ws[1..])
  }

  function Rejection(c: Config, s: State, op: Op): Option<Error> {
    match op
    case Set(k, v, _) => if Frozen(s, k) then Some(ShardSplitting) else if TooLarge(c, v) then Some(ValueTooLarge) else None
    case Delete(k) => if Frozen(s, k) then Some(ShardSplitting) else None
    case DeleteRange(a, b) => if FrozenOverlap(s, a, b) then Some(ShardSplitting) else None
    case TxApply(seen, ws) =>
      if FrozenWrites(s, ws) then Some(ShardSplitting)
      else if !ReadsValid(s, seen) then Some(Conflict)
      else BadWrite(c, s, None, ws)
    case TxPrepare(txid, seen, ws) =>
      if FrozenWrites(s, ws) then Some(ShardSplitting)
      else if !ReadsValid(s, seen) then Some(Conflict)
      else BadWrite(c, s, Some(txid), ws)
    case GetAt(_, r) => if r < s.cutoff then Some(TxTooOld) else None
    case ListAt(_, _, _, r) => if (if r == 0 then s.rev else r) < s.cutoff then Some(TxTooOld) else None
    case Unknown => Some(UnknownOp)
    case _ => None
  }

  // --- applying one command -----------------------------------------------------------

  /** The put/delete list an accepted command writes at its own revision. */
  function WritesOf(s: State, op: Op): seq<TxWrite> {
    match op
    case Set(k, v, blob) => [TxWrite(k, v, false, blob)]
    case Delete(k) => [DeleteOf(k)]
    case DeleteRange(a, b) => Deletes(Sorted(set k | k in s.latest && AtMost(a, k) && Less(k, b)))
    case SplitCleanup(range) => Deletes(Sorted(set k | k in s.latest && range.Contains(k)))
    case TxApply(_, ws) => ws
    case TxCommit(txid) => CommitWrites(s, txid)
    case _ => []
  }

  /** Whether the command moves the revision counter to its raft index. */
  predicate Bumps(op: Op) {
    op.Set? || op.Delete? || op.DeleteRange? || op.TxApply? || op.TxCommit? || op.FreezeRange? || op.SplitCleanup?
  }

  function MaxRev(pairs: map<Key, Record>, floor: nat): (m: nat)
    ensures m >= floor
    ensures forall k :: k in pairs ==> pairs[k].rev <= m
    ensures m == floor || exists k :: k in pairs && pairs[k].rev == m
    decreases |pairs|
  {
    if pairs == map[] then floor
    else
      var k := Least(pairs.Keys);
      var rest := MaxRev(pairs - {k}, floor);
      assert forall l :: l in pairs ==> l == k || l in pairs - {k};
      if pairs[k].rev > rest then pairs[k].rev else rest
  }

  /** The state an accepted command commits, before garbage collection. */
  function Accepted(s: State, n: nat, op: Op): State {
    var staged := Stage(s, n, WritesOf(s, op)).(rev := if Bumps(op) then n else s.rev);
    match op
    case TxPrepare(txid, _, ws) =>
      staged.(intents := s.intents + map k | k in WriteKeys(ws) :: Intent(txid, ws))
    case TxCommit(txid) => staged.(intents := s.intents - TxKeys(s, txid))
    case TxAbort(txid) => staged.(intents := s.intents - TxKeys(s, txid))
    case FreezeRange(range) => staged.(freeze := Some(range))
    case SplitCleanup(range) => staged.(freeze := if s.freeze == Some(range) then None else s.freeze)
    case CopyIn(pairs) => staged.(latest := s.latest + pairs, rev := MaxRev(pairs, s.rev))
    case _ => staged
  }

  function ApplyOp(c: Config, s: State, n: nat, op: Op): State {
    if Rejection(c, s, op).Some? then s else Accepted(s, n, op)
  }

  // --- garbage collection ---------------------------------------------------------------

  /** n is a multiple of `every`: its remainder, by repeated subtraction, is 0. */
  predicate Divides(every: nat, n: nat) {
    n == 0 || (0 < every <= n && Divides(every, n - every))
  }

  /** The code's own test, n % every == 0. */
  lemma {:induction false} DividesIsMod(every: nat, n: nat)
    requires every > 0
    ensures Divides(every, n) <==> n % every == 0
    decreases n
  {
    if n < every {
      assert n % every == n;
    } else {
      DividesIsMod(every, n - every);
      ModStep(n, every);
    }
  }

  /** The horizon a garbage collection pass at this index would move to. */
  function NewCutoff(c: Config, cutoff: nat, n: nat): Option<nat> {
    if c.gcEvery == 0 || !Divides(c.gcEvery, n) || n <= c.historyRevisions || n - c.historyRevisions <= cutoff then None
    else Some(n - c.historyRevisions)
  }

  /** The horizon after the entry at this index. */
  function CutoffAfter(c: Config, s: State, n: nat): nat {
    var moved := NewCutoff(c, s.cutoff, n);
    if moved.Some? then moved.value else s.cutoff
  }

  ghost predicate Newest(s: State, v: Version) {
    forall w :: w in s.hist && w.key == v.key ==> w.rev <= v.rev
  }

  /**
   No admissible read needs v: a newer version, or the live record, is already
   at or below the cutoff; or v is a trailing tombstone at or below it.
   */
  ghost predicate Prunable(s: State, cutoff: nat, v: Version)
    requires v in s.hist
  {
    || (exists w :: w in s.hist && w.key == v.key && v.rev < w.rev <= cutoff)
    || (Newest(s, v) &&
        if v.key in s.latest then s.latest[v.key].rev <= cutoff else s.hist[v].deleted && v.rev <= cutoff)
  }

  ghost function Prune(s: State, cutoff: nat): set<Version> {
    set v | v in s.hist && Prunable(s, cutoff, v)
  }

  /**
   One committed entry. Garbage collection runs last but scans the state
   committed before the entry, so its deletions land on top of whatever the
   entry itself archived.
   */
  ghost function Apply(c: Config, s: State, n: nat, op: Op): State {
    var t := ApplyOp(c, s, n, op);
    var moved := NewCutoff(c, s.cutoff, n);
    if moved.None? then t
    else t.(hist := t.hist - Prune(s, moved.value), cutoff := moved.value)
  }
}
