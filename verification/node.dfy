/**
 One replica of a raft group on disk: applying the log, compacting it,
 receiving a snapshot and installing it, with a crash possible anywhere.

 The store is an ordered list of atomic batches. A synced batch makes itself
 and everything before it durable; a crash keeps the durable batches and any
 number of the ones after them, in order. The state machine is any function
 of its sections, the index and the command.
 */
module Node {
  import opened Bytes
  import opened Layout

  type Value = seq<Byte>

  type Name = seq<Byte>

  /** A row of the state machine's key ranges, and its staged counterpart. */
  datatype Row = Row(section: Name, key: Key)

  datatype Cell = Cell(section: nat, key: Key)

  type Rows = map<Row, Value>

  type Cells = map<Cell, Value>

  /** Committed log entries; `Empty` also stands for an unparseable command. */
  datatype Cmd = Normal(data: Value) | Empty | ConfChange

  /** One committed log for all replicas, and how many entries pile up before a compaction. */
  datatype Group = Group(apply: (Rows, nat, Value) -> Rows, log: seq<Cmd>, snapCount: nat)

  datatype Marker = Marker(installing: bool, index: nat, sections: seq<Name>, counts: seq<nat>)

  /** `log` holds the entries above `base`, the compaction point. */
  datatype Disk = Disk(
    rows: Rows, applied: nat, base: nat, log: seq<Cmd>, commit: nat,
    staging: Cells, marker: Option<Marker>)

  datatype Receiver = NoTransfer | Staging(index: nat, sections: seq<Name>, todo: Cells)

  datatype Installer = Ready | Installing(wiped: bool, copied: set<Cell>)

  datatype Memory = Down | Up(applied: nat, recv: Receiver, inst: Installer)

  /** `disks` are the states after each batch; those before `synced` are gone. */
  datatype Replica = Replica(disks: seq<Disk>, synced: nat, mem: Memory)

  function Current(r: Replica): Disk
    requires r.disks != []
  {
    r.disks[|r.disks| - 1]
  }

  function Last(d: Disk): nat {
    d.base + |d.log|
  }

  function Max(a: nat, b: nat): nat {
    if a < b then b else a
  }

  /** The state machine after the committed entries up to an index. */
  function StateAt(g: Group, i: nat): Rows
    requires i <= |g.log|
  {
    if i == 0 then map[]
    else if g.log[i - 1].Normal? then g.apply(StateAt(g, i - 1), i, g.log[i - 1].data)
    else StateAt(g, i - 1)
  }

  // --- staging ---------------------------------------------------------------------------

  predicate Distinct(sections: seq<Name>) {
    forall i, j :: 0 <= i < j < |sections| ==> sections[i] != sections[j]
  }

  /** The row a staged cell is copied to. */
  function RowOf(sections: seq<Name>, c: Cell): Row
    requires c.section < |sections|
  {
    Row(sections[c.section], c.key)
  }

  predicate Named(sections: seq<Name>, cells: Cells) {
    forall c :: c in cells ==> c.section < |sections|
  }

  function IndexOf(sections: seq<Name>, name: Name): nat {
    if sections == [] || sections[0] == name then 0 else 1 + IndexOf(sections[1..], name)
  }

  lemma {:induction false} IndexOfDistinct(sections: seq<Name>, i: nat)
    requires Distinct(sections) && i < |sections|
    ensures IndexOf(sections, sections[i]) == i
  {
    if i > 0 { IndexOfDistinct(sections[1..], i - 1); }
  }

  function CellOf(sections: seq<Name>, r: Row): Cell {
    Cell(IndexOf(sections, r.section), r.key)
  }

  lemma CellOfRow(sections: seq<Name>, c: Cell)
    requires Distinct(sections) && c.section < |sections|
    ensures CellOf(sections, RowOf(sections, c)) == c
  {
    IndexOfDistinct(sections, c.section);
  }

  function Targets(sections: seq<Name>, copied: set<Cell>): set<Row>
    requires forall c :: c in copied ==> c.section < |sections|
  {
    set c | c in copied :: RowOf(sections, c)
  }

  /** What copying the given staged cells to the live ranges adds there. */
  function Promote(sections: seq<Name>, cells: Cells, copied: set<Cell>): Rows
    requires Named(sections, cells) && copied <= cells.Keys
  {
    map r | r in Targets(sections, copied) && CellOf(sections, r) in cells :: cells[CellOf(sections, r)]
  }

  lemma PromoteHolds(sections: seq<Name>, cells: Cells, copied: set<Cell>, r: Row)
    requires Distinct(sections) && Named(sections, cells) && copied <= cells.Keys
    ensures r in Promote(sections, cells, copied) <==> CellOf(sections, r) in copied && RowOf(sections, CellOf(sections, r)) == r
    ensures r in Promote(sections, cells, copied) ==> Promote(sections, cells, copied)[r] == cells[CellOf(sections, r)]
  {
    if r in Targets(sections, copied) {
      var c :| c in copied && RowOf(sections, c) == r;
      CellOfRow(sections, c);
    }
    if CellOf(sections, r) in copied { assert RowOf(sections, CellOf(sections, r)) == r ==> r in Targets(sections, copied); }
  }

  /** The stream a sender makes of its rows: a cell per row, and no others. */
  ghost predicate IsStream(sections: seq<Name>, rows: Rows, cells: Cells) {
    && Distinct(sections) && Named(sections, cells)
    && (forall c {:trigger RowOf(sections, c)} :: c in cells ==> RowOf(sections, c) in rows && rows[RowOf(sections, c)] == cells[c])
    && (forall r {:trigger CellOf(sections, r)} :: r in rows ==> CellOf(sections, r) in cells && RowOf(sections, CellOf(sections, r)) == r)
  }

  lemma PromoteAll(sections: seq<Name>, rows: Rows, cells: Cells)
    requires IsStream(sections, rows, cells)
    ensures Promote(sections, cells, cells.Keys) == rows
  {
    var p := Promote(sections, cells, cells.Keys);
    forall r ensures (r in p <==> r in rows) && (r in p ==> p[r] == rows[r]) {
      PromoteHolds(sections, cells, cells.Keys, r);
      assert r in rows ==> CellOf(sections, r) in cells;
    }
  }

  lemma PromoteMore(sections: seq<Name>, cells: Cells, copied: set<Cell>, more: set<Cell>)
    requires Distinct(sections) && Named(sections, cells) && copied <= cells.Keys && more <= cells.Keys
    ensures Promote(sections, cells, copied) + Promote(sections, cells, more) == Promote(sections, cells, copied + more)
  {
    var a, b, both := Promote(sections, cells, copied), Promote(sections, cells, more), Promote(sections, cells, copied + more);
    forall r ensures (r in a + b <==> r in both) && (r in both ==> (a + b)[r] == both[r]) {
      PromoteHolds(sections, cells, copied, r);
      PromoteHolds(sections, cells, more, r);
      PromoteHolds(sections, cells, copied + more, r);
    }
  }

  function CountOf(cells: Cells, section: nat): nat {
    |set c | c in cells && c.section == section|
  }

  function Counts(sections: seq<Name>, cells: Cells): seq<nat> {
    seq(|sections|, i requires 0 <= i < |sections| => CountOf(cells, i))
  }

  /** The marker's promise: staging holds exactly the snapshot it names. */
  ghost predicate Staged(g: Group, m: Marker, cells: Cells) {
    && m.index <= |g.log| && IsStream(m.sections, StateAt(g, m.index), cells)
    && m.counts == Counts(m.sections, cells)
  }

  // --- steps -------------------------------------------------------------------------------

  datatype Step =
    | Append(keep: nat, entries: seq<Cmd>, commit: nat, sync: bool)
    | Apply
    | Compact
    | BeginReceive(index: nat, sections: seq<Name>, stream: Cells)
    | StagePage(page: Cells)
    | FinishReceive
    | DropReceive
    | BeginInstall(index: nat)
    | Wipe
    | CopyRows(cells: set<Cell>)
    | Finalize
    | Crash(survives: nat)
    | Restart

  /** Index of the next entry raft hands out. */
  function NextIndex(r: Replica): nat
    requires r.mem.Up? && r.disks != []
  {
    Max(r.mem.applied, Current(r).base) + 1
  }

  /** The group loop is idle: up, and not busy installing. */
  predicate Running(r: Replica) {
    r.disks != [] && r.mem.Up? && r.mem.inst.Ready?
  }

  /** Stored entries up to the commit index are the group's. */
  ghost predicate Matches(g: Group, d: Disk) {
    && d.base <= d.commit <= Last(d) && d.commit <= |g.log|
    && forall j :: 0 <= j < d.commit - d.base ==> d.log[j] == g.log[d.base + j]
  }

  function AppendTo(d: Disk, keep: nat, entries: seq<Cmd>, commit: nat): Disk
    requires keep <= |d.log|
  {
    d.(log := d.log[..keep] + entries, commit := commit)
  }

  /** Raft's contract on one Ready: committed entries stay, new ones are sound. */
  ghost predicate LegalAppend(g: Group, d: Disk, keep: nat, entries: seq<Cmd>, commit: nat) {
    && keep <= |d.log| && (entries == [] ==> keep == |d.log|)
    && d.commit <= d.base + keep && d.commit <= commit
    && Matches(g, AppendTo(d, keep, entries, commit))
  }

  /** Enough entries have been applied since the compaction point. */
  predicate Due(g: Group, r: Replica)
    requires Running(r)
  {
    var first := Current(r).base + 1;
    r.mem.applied > first && r.mem.applied - first >= g.snapCount
  }

  /** A snapshot exists that may have to be served again with a fresh view. */
  predicate Regenerates(r: Replica)
    requires Running(r)
  {
    Current(r).base > 0 && r.mem.applied > 0
  }

  /** Raft starts from the persisted applied index, which must not lie below the log. */
  predicate CanRestart(d: Disk) {
    Interrupted(d) || d.applied == 0 || d.base <= d.applied
  }

  ghost predicate Enabled(g: Group, r: Replica, step: Step) {
    && r.disks != []
    && var d := Current(r);
    match step
    case Append(keep, entries, commit, sync) =>
      Running(r) && LegalAppend(g, d, keep, entries, commit) && (entries != [] ==> sync)
    case Apply => Running(r) && NextIndex(r) <= d.commit && d.commit <= |g.log|
    case Compact => Running(r) && r.mem.applied <= Last(d) && (Due(g, r) || Regenerates(r))
    case BeginReceive(index, sections, stream) =>
      && r.mem.Up? && r.mem.recv.NoTransfer?
      && (d.marker.Some? ==> !d.marker.value.installing && d.marker.value.index <= index)
      && 0 < |sections| <= 255 && index <= |g.log| && IsStream(sections, StateAt(g, index), stream)
    case StagePage(page) => r.mem.Up? && r.mem.recv.Staging? && forall c :: c in page ==> c in r.mem.recv.todo && r.mem.recv.todo[c] == page[c]
    case FinishReceive => r.mem.Up? && r.mem.recv.Staging? && r.mem.recv.todo == map[]
    case DropReceive => r.mem.Up? && r.mem.recv.Staging?
    case BeginInstall(index) => Running(r) && d.marker.Some? && d.marker.value.index == index && d.commit < index
    case Wipe => r.mem.Up? && r.mem.inst.Installing? && d.marker.Some?
    case CopyRows(cells) =>
      r.mem.Up? && r.mem.inst.Installing? && r.mem.inst.wiped && d.marker.Some?
      && Named(d.marker.value.sections, d.staging) && cells <= d.staging.Keys
    case Finalize =>
      r.mem.Up? && r.mem.inst.Installing? && r.mem.inst.wiped && d.marker.Some? && r.mem.inst.copied == d.staging.Keys
    case Crash(survives) => r.synced <= survives < |r.disks|
    case Restart => r.mem.Down? && CanRestart(d)
  }

  predicate Interrupted(d: Disk) {
    d.marker.Some? && d.marker.value.installing
  }

  /** One committed batch. */
  function Commit(r: Replica, d: Disk, sync: bool, mem: Memory): Replica {
    Replica(r.disks + [d], if sync then |r.disks| else r.synced, mem)
  }

  ghost function Next(g: Group, r: Replica, step: Step): Replica
    requires Enabled(g, r, step)
  {
    var d := Current(r);
    match step
    case Append(keep, entries, commit, sync) => Commit(r, AppendTo(d, keep, entries, commit), sync, r.mem)
    case Apply =>
      var n, mem := NextIndex(r), r.mem.(applied := NextIndex(r));
      (match g.log[n - 1]
       case Normal(data) => Commit(r, d.(rows := g.apply(d.rows, n, data), applied := n), false, mem)
       case Empty => r.(mem := mem)
       case ConfChange => Commit(Commit(r, d, true, mem), d.(applied := n), false, mem))
    case Compact =>
      if r.mem.applied < d.base then r
      else Commit(r, d.(base := r.mem.applied, log := d.log[r.mem.applied - d.base..]), true, r.mem)
    case BeginReceive(index, sections, stream) =>
      Commit(r, d.(staging := map[], marker := None), false, r.mem.(recv := Staging(index, sections, stream)))
    case StagePage(page) =>
      Commit(r, d.(staging := d.staging + page), false, r.mem.(recv := r.mem.recv.(todo := r.mem.recv.todo - page.Keys)))
    case FinishReceive =>
      var recv := r.mem.recv;
      Commit(r, d.(marker := Some(Marker(false, recv.index, recv.sections, Counts(recv.sections, d.staging)))), true, r.mem.(recv := NoTransfer))
    case DropReceive => r.(mem := r.mem.(recv := NoTransfer))
    case BeginInstall(index) =>
      Commit(r, d.(marker := Some(d.marker.value.(installing := true))), true, r.mem.(inst := Installing(false, {})))
    case Wipe => Commit(r, d.(rows := map[]), false, r.mem.(inst := Installing(true, {})))
    case CopyRows(cells) =>
      Commit(r, d.(rows := d.rows + Promote(d.marker.value.sections, d.staging, cells)), false,
             r.mem.(inst := Installing(true, r.mem.inst.copied + cells)))
    case Finalize =>
      var index := d.marker.value.index;
      Commit(r, Disk(d.rows, index, index, [], Max(d.commit, index), map[], None), true,
             r.mem.(applied := index, inst := Ready))
    case Crash(survives) => Replica([r.disks[survives]], 0, Down)
    case Restart => r.(mem := Up(d.applied, NoTransfer, if Interrupted(d) then Installing(false, {}) else Ready))
  }

  const FRESH := Disk(map[], 0, 0, [], 0, map[], None)

  const NEW := Replica([FRESH], 0, Up(0, NoTransfer, Ready))

  ghost predicate IsRun(g: Group, run: seq<Replica>, steps: seq<Step>) {
    && |run| == |steps| + 1 && run[0] == NEW
    && forall i :: 0 <= i < |steps| ==> Enabled(g, run[i], steps[i]) && run[i + 1] == Next(g, run[i], steps[i])
  }
}
