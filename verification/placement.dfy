/**
 Where chunks and shards go: a write succeeds only with its promised copies on
 distinct nodes, and a stripe spread over distinct nodes stays readable when as
 many of them are lost as it has parity shards.
 */
module Placement {
  import opened Bytes
  import opened Layout
  import opened Blob
  import opened BlobRead

  type NodeId = nat

  predicate Distinct(nodes: seq<NodeId>) {
    forall i, j :: 0 <= i < j < |nodes| ==> nodes[i] != nodes[j]
  }

  // --- replicas --------------------------------------------------------------------------------

  /** The other nodes that take a copy, in node-list order. */
  function Accepting(nodes: seq<NodeId>, self: NodeId, push: NodeId -> bool): seq<NodeId>
    decreases |nodes|
  {
    if nodes == [] then []
    else
      var rest, n := Accepting(nodes[..|nodes| - 1], self, push), nodes[|nodes| - 1];
      if n != self && push(n) then rest + [n] else rest
  }

  function Quorum(replicas: int, nodes: nat): (want: nat)
    ensures 1 <= want && (want > 1 ==> want <= replicas && want <= nodes)
  {
    var least := if replicas < nodes then replicas else nodes;
    if least < 1 then 1 else least
  }

  lemma AcceptingStep(nodes: seq<NodeId>, self: NodeId, push: NodeId -> bool, i: nat)
    requires i < |nodes|
    ensures Accepting(nodes[..i + 1], self, push) ==
            if nodes[i] != self && push(nodes[i]) then Accepting(nodes[..i], self, push) + [nodes[i]] else Accepting(nodes[..i], self, push)
  {
    assert nodes[..i + 1][..i] == nodes[..i];
  }

  lemma {:induction false} AcceptingGrows(nodes: seq<NodeId>, self: NodeId, push: NodeId -> bool, i: nat)
    requires i <= |nodes|
    ensures Accepting(nodes[..i], self, push) <= Accepting(nodes, self, push)
    decreases |nodes| - i
  {
    if i < |nodes| {
      AcceptingStep(nodes, self, push, i);
      AcceptingGrows(nodes, self, push, i + 1);
    } else {
      assert nodes[..i] == nodes;
    }
  }

  /** A local copy first, then pushes until the quorum is met or nobody is left. */
  method StoreReplicated(nodes: seq<NodeId>, self: NodeId, replicas: int, putLocal: bool, push: NodeId -> bool) returns (r: Option<seq<NodeId>>)
    ensures var want, others := Quorum(replicas, |nodes|), Accepting(nodes, self, push);
            r == if putLocal && 1 + |others| >= want then Some([self] + others[..want - 1]) else None
    ensures r.Some? && replicas <= |nodes| ==> |r.value| == if replicas < 1 then 1 else replicas
    ensures r.Some? && replicas > |nodes| ==> |r.value| == if nodes == [] then 1 else |nodes|
    ensures r.Some? && Distinct(nodes) ==> Distinct(r.value) && self in r.value && forall n :: n in r.value && n != self ==> n in nodes && push(n)
  {
    if !putLocal { return None; }
    var want := Quorum(replicas, |nodes|);
    var held := [self];
    var i := 0;
    while i < |nodes| && |held| < want
      invariant i <= |nodes| && held == [self] + Accepting(nodes[..i], self, push) && |held| <= want
    {
      AcceptingStep(nodes, self, push, i);
      if nodes[i] != self && push(nodes[i]) { held := held + [nodes[i]]; }
      i := i + 1;
    }
    AcceptingGrows(nodes, self, push, i);
    if i == |nodes| { assert nodes[..i] == nodes; }
    assert |held| == want ==> Accepting(nodes, self, push)[..want - 1] == Accepting(nodes[..i], self, push);
    if |held| == want && Distinct(nodes) { ReplicasAreDistinct(nodes, self, replicas, push); }
    r := if |held| < want then None else Some(held);
  }

  lemma {:induction false} AcceptingHolds(nodes: seq<NodeId>, self: NodeId, push: NodeId -> bool)
    requires Distinct(nodes)
    ensures Distinct([self] + Accepting(nodes, self, push))
    ensures forall n :: n in Accepting(nodes, self, push) ==> n in nodes && n != self && push(n)
    decreases |nodes|
  {
    if nodes != [] {
      var init, n := nodes[..|nodes| - 1], nodes[|nodes| - 1];
      AcceptingHolds(init, self, push);
      assert forall i :: 0 <= i < |init| ==> init[i] == nodes[i] != n;
      var rest := Accepting(init, self, push);
      forall i | 0 <= i < |rest| ensures rest[i] != n { assert rest[i] in rest; }
      if n != self && push(n) { assert [self] + (rest + [n]) == [self] + rest + [n]; }
    }
  }

  /** A stored chunk is on exactly its quorum of distinct nodes, one of them local. */
  lemma ReplicasAreDistinct(nodes: seq<NodeId>, self: NodeId, replicas: int, push: NodeId -> bool)
    requires Distinct(nodes) && 1 + |Accepting(nodes, self, push)| >= Quorum(replicas, |nodes|)
    ensures var held := [self] + Accepting(nodes, self, push)[..Quorum(replicas, |nodes|) - 1];
            Distinct(held) && |held| == Quorum(replicas, |nodes|) && held[0] == self && forall i :: 0 < i < |held| ==> held[i] in nodes && push(held[i])
  {
    AcceptingHolds(nodes, self, push);
    var others := Accepting(nodes, self, push);
    var held, all := [self] + others[..Quorum(replicas, |nodes|) - 1], [self] + others;
    assert forall i :: 0 <= i < |held| ==> held[i] == all[i];
    forall i | 0 < i < |held| ensures held[i] in nodes && push(held[i]) { assert held[i] == others[i - 1] && others[i - 1] in others; }
  }

  // --- shards --------------------------------------------------------------------------------------

  function Load(used: map<NodeId, nat>, n: NodeId): nat {
    if n in used then used[n] else 0
  }

  /** An unused node if any accepts; else, unless spread is required, a least-loaded one. */
  ghost predicate Chosen(nodes: seq<NodeId>, used: map<NodeId, nat>, distinct: bool, put: NodeId -> bool, r: Option<NodeId>) {
    if exists n :: n in nodes && Load(used, n) == 0 && put(n)
    then r.Some? && r.value in nodes && put(r.value) && Load(used, r.value) == 0
    else if distinct || !exists n :: n in nodes && put(n) then r.None?
    else r.Some? && r.value in nodes && put(r.value) && forall n :: n in nodes && put(n) ==> Load(used, r.value) <= Load(used, n)
  }

  /** x modulo len, by repeated subtraction. */
  function Wrap(x: nat, len: nat): (j: nat)
    requires len > 0
    ensures j < len
  {
    if x < len then x else Wrap(x - len, len)
  }

  /** The code's own index, x % len. */
  lemma {:induction false} WrapIsMod(x: nat, len: nat)
    requires len > 0
    ensures Wrap(x, len) == x % len
    decreases x
  {
    if x < len {
      assert x % len == x;
    } else {
      WrapIsMod(x - len, len);
      ModStep(x, len);
    }
  }

  /** Round-robin order from the shard's own index. */
  function Candidate(nodes: seq<NodeId>, k: nat, i: nat): NodeId
    requires nodes != []
  {
    nodes[Wrap(k + i, |nodes|)]
  }

  /** Going round from any start reaches every position. */
  lemma {:induction false} RotateTo(k: nat, len: nat, j: nat) returns (i: nat)
    requires j < len
    ensures i < len && Wrap(k + i, len) == j
    decreases k
  {
    if k >= len {
      i := RotateTo(k - len, len, j);
    } else {
      i := if k <= j then j - k else j - k + len;
    }
  }

  lemma RotationCovers(nodes: seq<NodeId>, k: nat, n: NodeId)
    requires n in nodes
    ensures exists i :: 0 <= i < |nodes| && Candidate(nodes, k, i) == n
  {
    var j :| 0 <= j < |nodes| && nodes[j] == n;
    var i := RotateTo(k, |nodes|, j);
    assert Candidate(nodes, k, i) == n;
  }

  method PlaceShard(nodes: seq<NodeId>, k: nat, used: map<NodeId, nat>, distinct: bool, put: NodeId -> bool) returns (r: Option<NodeId>)
    ensures Chosen(nodes, used, distinct, put, r)
    ensures (exists n :: n in nodes && Load(used, n) == 0 && put(n)) ==> r.Some? && FirstFrom(nodes, k, used, put, r.value)
  {
    var unused := FirstUnused(nodes, k, used, put);
    if unused.Some? || distinct { return unused; }
    r := LeastLoaded(nodes, used, put);
  }

  /** Going round from the shard's own index, n is the first unused node that accepts. */
  predicate FirstFrom(nodes: seq<NodeId>, k: nat, used: map<NodeId, nat>, put: NodeId -> bool, n: NodeId) {
    exists i: nat :: i < |nodes| && Candidate(nodes, k, i) == n && Load(used, n) == 0 && put(n) &&
      forall j: nat :: j < i ==> Load(used, Candidate(nodes, k, j)) > 0 || !put(Candidate(nodes, k, j))
  }

  /** The first pass: nodes that hold no shard of this stripe yet. */
  method FirstUnused(nodes: seq<NodeId>, k: nat, used: map<NodeId, nat>, put: NodeId -> bool) returns (r: Option<NodeId>)
    ensures r.Some? ==> r.value in nodes && put(r.value) && Load(used, r.value) == 0
    ensures r.None? ==> forall n :: n in nodes ==> Load(used, n) > 0 || !put(n)
    ensures r.Some? ==> FirstFrom(nodes, k, used, put, r.value)
  {
    for i := 0 to |nodes|
      invariant forall j :: 0 <= j < i ==> Load(used, Candidate(nodes, k, j)) > 0 || !put(Candidate(nodes, k, j))
    {
      var n := Candidate(nodes, k, i);
      if Load(used, n) > 0 { continue; }
      if put(n) { return Some(n); }
    }
    forall n | n in nodes ensures Load(used, n) > 0 || !put(n) { RotationCovers(nodes, k, n); }
    r := None;
  }

  /** Doubling up: the accepting node that holds fewest shards of this stripe. */
  method LeastLoaded(nodes: seq<NodeId>, used: map<NodeId, nat>, put: NodeId -> bool) returns (r: Option<NodeId>)
    ensures r.None? <==> forall n :: n in nodes ==> !put(n)
    ensures r.Some? ==> r.value in nodes && put(r.value) && forall n :: n in nodes && put(n) ==> Load(used, r.value) <= Load(used, n)
  {
    r := None;
    for i := 0 to |nodes|
      invariant r.None? <==> forall j :: 0 <= j < i ==> !put(nodes[j])
      invariant r.Some? ==> r.value in nodes && put(r.value) && forall j :: 0 <= j < i && put(nodes[j]) ==> Load(used, r.value) <= Load(used, nodes[j])
    {
      if put(nodes[i]) && (r.None? || Load(used, nodes[i]) < Load(used, r.value)) { r := Some(nodes[i]); }
    }
  }

  function CountIn(targets: seq<NodeId>, n: NodeId): nat
    decreases |targets|
  {
    if targets == [] then 0 else CountIn(targets[..|targets| - 1], n) + if targets[|targets| - 1] == n then 1 else 0
  }

  /** How many shards of the stripe each node holds. */
  ghost predicate Counts(used: map<NodeId, nat>, targets: seq<NodeId>) {
    forall n :: Load(used, n) == CountIn(targets, n)
  }

  lemma {:induction false} CountPositive(targets: seq<NodeId>, n: NodeId)
    ensures CountIn(targets, n) > 0 <==> n in targets
    decreases |targets|
  {
    if targets != [] {
      CountPositive(targets[..|targets| - 1], n);
      assert targets == targets[..|targets| - 1] + [targets[|targets| - 1]];
    }
  }

  lemma CountNext(used: map<NodeId, nat>, targets: seq<NodeId>, n: NodeId)
    requires Counts(used, targets)
    ensures Counts(used[n := Load(used, n) + 1], targets + [n])
  {
    var all, more := targets + [n], used[n := Load(used, n) + 1];
    assert all[..|all| - 1] == targets && all[|all| - 1] == n;
    forall m ensures Load(more, m) == CountIn(all, m) { assert Load(used, m) == CountIn(targets, m); }
  }

  /** Every node is within one shard of every other. */
  ghost predicate Even(nodes: seq<NodeId>, targets: seq<NodeId>) {
    forall m, n :: m in nodes && n in nodes ==> CountIn(targets, m) <= CountIn(targets, n) + 1
  }

  /** The nodes that accept every shard of the stripe. */
  ghost function Reliable(nodes: seq<NodeId>, shards: nat, put: (nat, NodeId) -> bool): set<NodeId> {
    set n | n in nodes && forall k: nat :: k < shards ==> put(k, n)
  }

  /** A shard finds a node whenever enough nodes accept everything. */
  lemma FindsNode(nodes: seq<NodeId>, shards: nat, put: (nat, NodeId) -> bool, k: nat, used: map<NodeId, nat>, placed: seq<NodeId>, target: Option<NodeId>)
    requires k == |placed| < shards && Counts(used, placed)
    requires Chosen(nodes, used, |nodes| >= shards, (n: NodeId) => put(k, n), target)
    requires |Reliable(nodes, shards, put)| >= if |nodes| >= shards then shards else 1
    ensures target.Some?
  {
    var good := Reliable(nodes, shards, put);
    if |nodes| >= shards {
      Unlisted(good, placed);
      var n :| n in good && n !in placed;
      CountPositive(placed, n);
      assert n in nodes && Load(used, n) == 0 && put(k, n);
    } else {
      var n :| n in good;
      assert n in nodes && put(k, n);
    }
  }

  /** Taking a least-loaded node keeps the spread even. */
  lemma StaysEven(nodes: seq<NodeId>, used: map<NodeId, nat>, placed: seq<NodeId>, distinct: bool, put: NodeId -> bool, target: Option<NodeId>)
    requires Counts(used, placed) && Even(nodes, placed) && Chosen(nodes, used, distinct, put, target) && target.Some?
    requires forall n :: n in nodes ==> put(n)
    ensures Even(nodes, placed + [target.value])
  {
    var all := placed + [target.value];
    assert all[..|all| - 1] == placed;
    forall n | n in nodes ensures CountIn(placed, target.value) <= CountIn(placed, n) {
      assert Load(used, target.value) <= Load(used, n);
    }
  }

  /**
   Every shard lands on an accepting node: on all-distinct ones when there are
   as many nodes as shards, and evenly spread when every node accepts. Enough
   nodes that accept everything make it succeed.
   */
  method PlaceStripe(nodes: seq<NodeId>, shards: nat, put: (nat, NodeId) -> bool) returns (targets: Option<seq<NodeId>>)
    ensures targets.Some? ==> |targets.value| == shards && forall k :: 0 <= k < shards ==> targets.value[k] in nodes && put(k, targets.value[k])
    ensures targets.Some? && |nodes| >= shards ==> Distinct(targets.value)
    ensures targets.Some? && (forall n :: n in nodes ==> n in Reliable(nodes, shards, put)) ==> Even(nodes, targets.value)
    ensures |Reliable(nodes, shards, put)| >= (if |nodes| >= shards then shards else 1) ==> targets.Some?
  {
    var distinct := |nodes| >= shards;
    var used: map<NodeId, nat>, placed: seq<NodeId> := map[], [];
    for k := 0 to shards
      invariant |placed| == k && Counts(used, placed)
      invariant forall j :: 0 <= j < k ==> placed[j] in nodes && put(j, placed[j])
      invariant distinct ==> Distinct(placed)
      invariant (forall n :: n in nodes ==> n in Reliable(nodes, shards, put)) ==> Even(nodes, placed)
    {
      var accepts := (n: NodeId) => put(k, n);
      var target := PlaceShard(nodes, k, used, distinct, accepts);
      if |Reliable(nodes, shards, put)| >= if distinct then shards else 1 { FindsNode(nodes, shards, put, k, used, placed, target); }
      if target.None? { return None; }
      if forall n :: n in nodes ==> n in Reliable(nodes, shards, put) { StaysEven(nodes, used, placed, distinct, accepts, target); }
      CountPositive(placed, target.value);
      CountNext(used, placed, target.value);
      used := used[target.value := Load(used, target.value) + 1];
      placed := placed + [target.value];
    }
    targets := Some(placed);
  }

  // --- losing nodes --------------------------------------------------------------------------------

  /** The shards whose node is still there. */
  function Reachable(targets: seq<NodeId>, down: set<NodeId>): nat
    decreases |targets|
  {
    if targets == [] then 0
    else Reachable(targets[..|targets| - 1], down) + if targets[|targets| - 1] in down then 0 else 1
  }

  /** Each lost node takes at most one shard of a spread stripe with it. */
  lemma {:induction false} LostShards(targets: seq<NodeId>, down: set<NodeId>)
    requires Distinct(targets)
    ensures Reachable(targets, down) + |down| >= |targets|
    decreases |targets|
  {
    if targets != [] {
      var init, n := targets[..|targets| - 1], targets[|targets| - 1];
      if n in down {
        LostShards(init, down - {n});
        SameReach(init, down, n);
      } else {
        LostShards(init, down);
      }
    }
  }

  lemma {:induction false} SameReach(targets: seq<NodeId>, down: set<NodeId>, n: NodeId)
    requires forall i :: 0 <= i < |targets| ==> targets[i] != n
    ensures Reachable(targets, down - {n}) == Reachable(targets, down)
    decreases |targets|
  {
    if targets != [] { SameReach(targets[..|targets| - 1], down, n); }
  }

  lemma {:induction false} ReachableFetched(fetch: Digest -> Option<Raw>, shards: seq<Ref>, targets: seq<NodeId>, down: set<NodeId>)
    requires |shards| == |targets| && forall i :: 0 <= i < |shards| ==> targets[i] in down || fetch(shards[i].hash).Some?
    ensures Available(MaskOf(fetch, shards)) >= Reachable(targets, down)
    decreases |shards|
  {
    if shards != [] {
      var n := |shards| - 1;
      ReachableFetched(fetch, shards[..n], targets[..n], down);
      var mask := MaskOf(fetch, shards);
      assert mask == MaskOf(fetch, shards[..n]) + [mask[n]];
      AvailableAppend(MaskOf(fetch, shards[..n]), mask[n]);
    } else {
      assert MaskOf(fetch, shards) == [];
    }
  }

  /**
   A stripe of d data and p parity shards on distinct nodes can still be read
   after any p of those nodes are gone.
   */
  lemma StripeSurvives(fetch: Digest -> Option<Raw>, stripe: Stripe, d: nat, p: nat, targets: seq<NodeId>, down: set<NodeId>)
    requires |stripe.shards| == |targets| == d + p && Distinct(targets) && |down| <= p
    requires forall i :: 0 <= i < |targets| ==> targets[i] in down || fetch(stripe.shards[i].hash).Some?
    ensures Enough(fetch, d, stripe)
  {
    LostShards(targets, down);
    ReachableFetched(fetch, stripe.shards, targets, down);
  }
}
