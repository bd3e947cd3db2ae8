/**
 The key-value state machine on a replica: what crashes and installs leave in
 its rows is the state the committed log alone yields.
 */
module Replay {
  import opened Bytes
  import opened Layout
  import opened Kv
  import Mvcc
  import History
  import Node
  import NodeProof

  /** How a state is laid out in rows, and how a command is encoded. */
  datatype Encoding = Encoding(rows: State -> Node.Rows, state: Node.Rows -> State, parse: Node.Value -> Op)

  ghost predicate Faithful(e: Encoding) {
    e.rows(EMPTY) == map[] && forall s :: e.state(e.rows(s)) == s
  }

  ghost function KvGroup(c: Config, e: Encoding, log: seq<Node.Cmd>, snapCount: nat): Node.Group {
    Node.Group((rows, n: nat, data) => e.rows(Apply(c, e.state(rows), n, e.parse(data))), log, snapCount)
  }

  /** The entries of the raft log that reach Apply. */
  function Commands(e: Encoding, log: seq<Node.Cmd>): History.Log
    decreases |log|
  {
    if log == [] then []
    else
      var rest, last := Commands(e, log[..|log| - 1]), log[|log| - 1];
      if last.Normal? then rest + [History.Logged(|log|, e.parse(last.data))] else rest
  }

  lemma {:induction false} CommandsIndexed(e: Encoding, log: seq<Node.Cmd>)
    ensures History.Indexed(Commands(e, log)) && History.LastIndex(Commands(e, log)) <= |log|
    decreases |log|
  {
    if log != [] {
      CommandsIndexed(e, log[..|log| - 1]);
      var all := Commands(e, log);
      if log[|log| - 1].Normal? { assert all[..|all| - 1] == Commands(e, log[..|log| - 1]); }
    }
  }

  lemma {:induction false} StateIsRun(c: Config, e: Encoding, log: seq<Node.Cmd>, snapCount: nat, i: nat)
    requires Faithful(e) && i <= |log|
    ensures Node.StateAt(KvGroup(c, e, log, snapCount), i) == e.rows(History.Run(c, Commands(e, log[..i])))
  {
    if i > 0 {
      StateIsRun(c, e, log, snapCount, i - 1);
      assert log[..i][..i - 1] == log[..i - 1];
      var all := Commands(e, log[..i]);
      if log[i - 1].Normal? { assert all[..|all| - 1] == Commands(e, log[..i - 1]); }
    }
  }

  /**
   Whenever a replica's group loop runs, decoding its rows gives the state of
   the crash-free run of the same log up to its applied index.
   */
  lemma ReplicaHoldsTheRun(c: Config, e: Encoding, log: seq<Node.Cmd>, snapCount: nat, run: seq<Node.Replica>, steps: seq<Node.Step>, i: nat)
    requires Faithful(e) && Node.IsRun(KvGroup(c, e, log, snapCount), run, steps) && i < |run| && Node.Running(run[i])
    ensures run[i].mem.applied <= |log|
    ensures e.state(Node.Current(run[i]).rows) == History.Run(c, Commands(e, log[..run[i].mem.applied]))
  {
    NodeProof.ReplayIsInvisible(KvGroup(c, e, log, snapCount), run, steps, i);
    StateIsRun(c, e, log, snapCount, run[i].mem.applied);
  }

  function First(log: seq<Node.Cmd>, n: nat): seq<Node.Cmd> {
    if n < |log| then log[..n] else log
  }

  /** Cutting the raft log at an index cuts its commands at that revision. */
  lemma {:induction false} UptoIsCut(e: Encoding, log: seq<Node.Cmd>, r: nat)
    ensures History.Upto(Commands(e, log), r) == Commands(e, First(log, r))
    decreases |log|
  {
    CommandsIndexed(e, log);
    if r < |log| {
      var rest, all := log[..|log| - 1], Commands(e, log);
      UptoIsCut(e, rest, r);
      assert First(rest, r) == log[..r];
      if log[|log| - 1].Normal? { assert all[..|all| - 1] == Commands(e, rest); }
    }
  }

  /**
   End to end: on any running replica, whatever crashed, was compacted or was
   installed before, a readable versioned read of a clean log at revision r
   returns the record the key holds after the raft log up to index r.
   */
  lemma ReplicaTimeTravel(c: Config, e: Encoding, log: seq<Node.Cmd>, snapCount: nat, run: seq<Node.Replica>, steps: seq<Node.Step>, i: nat, k: Key, r: nat)
    requires Faithful(e) && Node.IsRun(KvGroup(c, e, log, snapCount), run, steps) && i < |run| && Node.Running(run[i])
    requires History.CleanLog(Commands(e, First(log, run[i].mem.applied)))
    requires e.state(Node.Current(run[i]).rows).cutoff <= r
    ensures Mvcc.ReadAt(e.state(Node.Current(run[i]).rows), k, r) ==
            Lookup(History.Run(c, Commands(e, First(First(log, run[i].mem.applied), r))).latest, k)
  {
    ReplicaHoldsTheRun(c, e, log, snapCount, run, steps, i);
    var mine := First(log, run[i].mem.applied);
    assert mine == log[..run[i].mem.applied];
    CommandsIndexed(e, mine);
    History.TimeTravel(c, Commands(e, mine), k, r);
    UptoIsCut(e, mine, r);
  }
}
