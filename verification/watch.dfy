/**
 The change feed of one group: a ring of recent events for resuming streams,
 and a bounded queue per subscriber.
 */
module Watch {
  import opened Bytes
  import opened Layout

  datatype Event = Event(rev: nat, delete: bool, key: Key, value: seq<Byte>)

  const CHANNEL: nat := 1024

  const NO_EVENT := Event(0, false, [], [])

  /** One live stream; what is queued and not yet drained. */
  datatype Subscriber = Subscriber(prefix: Key, queue: seq<Event>)

  // --- sequences of events --------------------------------------------------------------------

  /** The last n events, or all of them. */
  function LastOf(all: seq<Event>, n: nat): seq<Event> {
    if |all| <= n then all else all[|all| - n..]
  }

  /** Events at or after a revision under a prefix, in order. */
  function Matching(events: seq<Event>, fromRev: nat, prefix: Key): seq<Event>
    decreases |events|
  {
    if events == [] then []
    else
      var rest, e := Matching(events[..|events| - 1], fromRev, prefix), events[|events| - 1];
      if e.rev >= fromRev && HasPrefix(e.key, prefix) then rest + [e] else rest
  }

  function Take(events: seq<Event>, n: nat): seq<Event> {
    if |events| <= n then events else events[..n]
  }

  /** Apply order: revisions never go down, and one entry may publish several events. */
  predicate InOrder(events: seq<Event>) {
    forall i, j :: 0 <= i < j < |events| ==> events[i].rev <= events[j].rev
  }

  lemma {:induction false} MatchingAppend(a: seq<Event>, b: seq<Event>, fromRev: nat, prefix: Key)
    ensures Matching(a + b, fromRev, prefix) == Matching(a, fromRev, prefix) + Matching(b, fromRev, prefix)
    decreases |b|
  {
    if b == [] {
      assert a + b == a;
    } else {
      var all := a + b;
      assert all[..|all| - 1] == a + b[..|b| - 1];
      MatchingAppend(a, b[..|b| - 1], fromRev, prefix);
    }
  }

  lemma {:induction false} MatchingNone(events: seq<Event>, fromRev: nat, prefix: Key)
    requires forall i :: 0 <= i < |events| ==> events[i].rev < fromRev
    ensures Matching(events, fromRev, prefix) == []
    decreases |events|
  {
    if events != [] { MatchingNone(events[..|events| - 1], fromRev, prefix); }
  }

  // --- the ring ----------------------------------------------------------------------------------

  /** x modulo the capacity, for offsets of less than two turns. */
  function Slot(x: nat, cap: nat): nat {
    if x < cap then x else x - cap
  }

  /** The code's own ring position, x % cap. */
  lemma SlotIsMod(x: nat, cap: nat)
    requires 0 < cap && x < 2 * cap
    ensures Slot(x, cap) == x % cap
  {
    if x < cap {
      assert x / cap == 0;
    } else {
      assert x / cap == 1;
    }
  }

  /** Where the oldest of `count` events lies when `head` is the next slot. */
  function Start(head: nat, count: nat, cap: nat): nat
    requires head < cap && count <= cap
  {
    Slot(head + cap - count, cap)
  }

  ghost predicate SlotHolds(r: seq<Event>, start: nat, kept: seq<Event>, i: int) {
    start < |r| && 0 <= i < |kept| <= |r| && r[Slot(start + i, |r|)] == kept[i]
  }

  /** The slots from the start on hold these events, oldest first. */
  ghost predicate Holds(r: seq<Event>, head: nat, count: nat, kept: seq<Event>) {
    && head < |r| && count == |kept| <= |r|
    && forall i {:trigger SlotHolds(r, Start(head, count, |r|), kept, i)} :: 0 <= i < count ==> SlotHolds(r, Start(head, count, |r|), kept, i)
  }

  /** The slot arithmetic of one publish: old slots keep their place, the new one is last. */
  lemma SlotStep(head: nat, count: nat, cap: nat, i: nat)
    requires head < cap && count <= cap
    ensures var more := if count < cap then count + 1 else count;
            var shift, start := if count < cap then 0 else 1, Start(Slot(head + 1, cap), more, cap);
            && (i == more - 1 ==> Slot(start + i, cap) == head)
            && (i < more - 1 ==> Slot(start + i, cap) == Slot(Start(head, count, cap) + i + shift, cap) && Slot(start + i, cap) != head)
  {
  }

  /** Writing the next slot appends, and drops the oldest once the ring is full. */
  lemma RingStep(r: seq<Event>, head: nat, count: nat, kept: seq<Event>, ev: Event)
    requires Holds(r, head, count, kept)
    ensures Holds(r[head := ev], Slot(head + 1, |r|), if count < |r| then count + 1 else count, if count < |r| then kept + [ev] else kept[1..] + [ev])
  {
    var cap, r', head' := |r|, r[head := ev], Slot(head + 1, |r|);
    var kept' := if count < cap then kept + [ev] else kept[1..] + [ev];
    var start, start' := Start(head, count, cap), Start(head', |kept'|, cap);
    forall i | 0 <= i < |kept'| ensures SlotHolds(r', start', kept', i) {
      SlotStep(head, count, cap, i);
      if i < |kept'| - 1 {
        var j := if count < cap then i else i + 1;
        assert SlotHolds(r, start, kept, j) && kept[j] == kept'[i];
      }
    }
  }

  lemma LastOfStep(all: seq<Event>, ev: Event, cap: nat)
    requires cap > 0
    ensures LastOf(all + [ev], cap) == if |LastOf(all, cap)| < cap then LastOf(all, cap) + [ev] else LastOf(all, cap)[1..] + [ev]
  {
  }

  class Hub {
    const ring: array<Event>
    var head: nat
    var count: nat
    var subs: map<nat, Subscriber>
    var next: nat
    ghost var all: seq<Event>

    ghost function Kept(): seq<Event>
      reads this
    {
      LastOf(all, ring.Length)
    }

    /** The ring holds the last min(n, capacity) published events, oldest first. */
    ghost predicate Valid()
      reads this, ring
    {
      && 0 < ring.Length && Holds(ring[..], head, count, Kept())
      && (forall id :: id in subs ==> id < next)
    }

    constructor (bufferSize: int)
      ensures Valid() && all == [] && subs == map[] && fresh(ring)
      ensures ring.Length == if bufferSize <= 0 then 4096 else bufferSize
    {
      var size := if bufferSize <= 0 then 4096 else bufferSize;
      ring := new Event[size](_ => NO_EVENT);
      head, count, subs, next, all := 0, 0, map[], 0, [];
    }

    /** Records the event, overwriting the oldest once full, and offers it to subscribers. */
    method Publish(ev: Event)
      requires Valid()
      modifies this`head, this`count, this`subs, this`all, ring
      ensures Valid() && all == old(all) + [ev]
      ensures subs.Keys == old(subs.Keys)
      ensures forall id :: id in subs ==> subs[id] == Offered(old(subs)[id], ev)
      ensures forall id :: id in subs ==>
                subs[id].queue == if HasPrefix(ev.key, old(subs)[id].prefix) && |old(subs)[id].queue| < 1024 then old(subs)[id].queue + [ev] else old(subs)[id].queue
    {
      RingStep(ring[..], head, count, Kept(), ev);
      LastOfStep(all, ev, ring.Length);
      ghost var next := ring[..][head := ev];
      ring[head] := ev;
      assert ring[..] == next;
      head := Slot(head + 1, ring.Length);
      if count < ring.Length { count := count + 1; }
      all := all + [ev];
      subs := Offer(subs, ev);
    }

    /** The i-th oldest buffered event. */
    method Buffered(i: nat) returns (ev: Event)
      requires Valid() && i < count
      ensures ev == Kept()[i]
    {
      var start := Slot(head + ring.Length - count, ring.Length);
      assert SlotHolds(ring[..], Start(head, count, |ring[..]|), Kept(), i);
      ev := ring[Slot(start + i, ring.Length)];
    }

    method OldestRev() returns (rev: nat)
      requires Valid()
      ensures rev == if all == [] then 0 else Kept()[0].rev
    {
      if count == 0 { return 0; }
      var ev := Buffered(0);
      rev := ev.rev;
    }

    /** Buffered matching events, until the channel is full. */
    method Replay(prefix: Key, fromRev: nat) returns (ch: seq<Event>)
      requires Valid()
      ensures ch == Take(Matching(Kept(), fromRev, prefix), CHANNEL)
      ensures ch <= Matching(Kept(), fromRev, prefix) && |ch| <= 1024 && (|ch| < 1024 ==> ch == Matching(Kept(), fromRev, prefix))
    {
      ghost var kept := Kept();
      ch := [];
      for i := 0 to count
        invariant ch == Matching(kept[..i], fromRev, prefix) && |ch| <= CHANNEL
      {
        var ev := Buffered(i);
        MatchingStep(kept, i, fromRev, prefix);
        if ev.rev >= fromRev && HasPrefix(ev.key, prefix) {
          if |ch| == CHANNEL {
            MatchingPrefix(kept, i + 1, fromRev, prefix);
            return;
          }
          ch := ch + [ev];
        }
      }
      assert kept[..count] == kept;
    }

    /** A stream from now, or from a revision the ring still reaches back to. */
    method Subscribe(prefix: Key, fromRev: nat) returns (id: Option<nat>)
      requires Valid()
      modifies this`subs, this`next
      ensures Valid() && all == old(all)
      ensures id.None? <==> fromRev > 0 && (all == [] || Kept()[0].rev == 0 || fromRev < Kept()[0].rev)
      ensures id.None? ==> subs == old(subs)
      ensures id.Some? ==> id.value !in old(subs) && subs == old(subs)[id.value :=
                Subscriber(prefix, if fromRev == 0 then [] else Take(Matching(Kept(), fromRev, prefix), CHANNEL))]
      ensures id.Some? && fromRev > 0 && InOrder(all) && Retained(all, ring.Length, fromRev) ==>
                subs[id.value] == Resumed(all, fromRev, prefix)
    {
      var ch := [];
      if fromRev > 0 {
        var oldest := OldestRev();
        if oldest == 0 || fromRev < oldest { return None; }
        ch := Replay(prefix, fromRev);
        if InOrder(all) && Retained(all, ring.Length, fromRev) { RetainedIsComplete(all, ring.Length, fromRev, prefix); }
      }
      id := Some(next);
      subs := subs[next := Subscriber(prefix, ch)];
      next := next + 1;
    }
  }

  /** Delivery never blocks: a full queue drops the event. */
  function Offered(sub: Subscriber, ev: Event): Subscriber {
    if HasPrefix(ev.key, sub.prefix) && |sub.queue| < CHANNEL then sub.(queue := sub.queue + [ev]) else sub
  }

  method Offer(subs: map<nat, Subscriber>, ev: Event) returns (out: map<nat, Subscriber>)
    ensures out.Keys == subs.Keys && forall id :: id in subs ==> out[id] == Offered(subs[id], ev)
  {
    out := subs;
    var todo := subs.Keys;
    while todo != {}
      invariant todo <= subs.Keys && out.Keys == subs.Keys
      invariant forall id :: id in subs ==> out[id] == if id in todo then subs[id] else Offered(subs[id], ev)
    {
      var id :| id in todo;
      out := out[id := Offered(subs[id], ev)];
      todo := todo - {id};
    }
  }

  lemma MatchingStep(events: seq<Event>, i: nat, fromRev: nat, prefix: Key)
    requires i < |events|
    ensures Matching(events[..i + 1], fromRev, prefix) ==
            Matching(events[..i], fromRev, prefix) + if events[i].rev >= fromRev && HasPrefix(events[i].key, prefix) then [events[i]] else []
  {
    assert events[..i + 1][..i] == events[..i];
  }

  lemma MatchingPrefix(events: seq<Event>, i: nat, fromRev: nat, prefix: Key)
    requires i <= |events|
    ensures |Matching(events[..i], fromRev, prefix)| <= |Matching(events, fromRev, prefix)|
    ensures Matching(events, fromRev, prefix)[..|Matching(events[..i], fromRev, prefix)|] == Matching(events[..i], fromRev, prefix)
  {
    MatchingAppend(events[..i], events[i..], fromRev, prefix);
    assert events[..i] + events[i..] == events;
  }

  // --- resuming -------------------------------------------------------------------------------------

  /** Nothing at or after the revision has left the ring. */
  predicate Retained(all: seq<Event>, cap: nat, fromRev: nat) {
    |all| <= cap || all[|all| - cap - 1].rev < fromRev
  }

  /** The ring alone answers for the whole history, whatever the prefix. */
  ghost predicate Complete(all: seq<Event>, cap: nat, fromRev: nat) {
    forall prefix :: Matching(LastOf(all, cap), fromRev, prefix) == Matching(all, fromRev, prefix)
  }

  lemma MatchingSplit(all: seq<Event>, cap: nat, fromRev: nat, prefix: Key)
    requires |all| > cap
    ensures Matching(all, fromRev, prefix) ==
            Matching(all[..|all| - cap], fromRev, prefix) + Matching(LastOf(all, cap), fromRev, prefix)
  {
    MatchingAppend(all[..|all| - cap], LastOf(all, cap), fromRev, prefix);
    assert all[..|all| - cap] + LastOf(all, cap) == all;
  }

  lemma RetainedIsComplete(all: seq<Event>, cap: nat, fromRev: nat, prefix: Key)
    requires InOrder(all) && Retained(all, cap, fromRev)
    ensures Matching(LastOf(all, cap), fromRev, prefix) == Matching(all, fromRev, prefix)
  {
    if |all| > cap {
      MatchingSplit(all, cap, fromRev, prefix);
      MatchingNone(all[..|all| - cap], fromRev, prefix);
    }
  }

  lemma EvictedIsMissed(all: seq<Event>, cap: nat, fromRev: nat)
    requires !Retained(all, cap, fromRev)
    ensures Matching(LastOf(all, cap), fromRev, []) != Matching(all, fromRev, [])
  {
    MatchingSplit(all, cap, fromRev, []);
    var gone := all[..|all| - cap];
    assert HasPrefix(gone[|gone| - 1].key, []);
    assert |Matching(gone, fromRev, [])| > 0;
  }

  /** A resume misses nothing if and only if the newest evicted event is older. */
  lemma ResumeCompleteIff(all: seq<Event>, cap: nat, fromRev: nat)
    requires InOrder(all)
    ensures Complete(all, cap, fromRev) <==> Retained(all, cap, fromRev)
  {
    if Retained(all, cap, fromRev) {
      forall prefix ensures Matching(LastOf(all, cap), fromRev, prefix) == Matching(all, fromRev, prefix) {
        RetainedIsComplete(all, cap, fromRev, prefix);
      }
    } else {
      EvictedIsMissed(all, cap, fromRev);
    }
  }

  /** A revision strictly above the oldest retained one is always safe to resume from. */
  lemma ResumeAboveOldest(all: seq<Event>, cap: nat, fromRev: nat)
    requires InOrder(all) && cap > 0 && all != [] && fromRev > LastOf(all, cap)[0].rev
    ensures Complete(all, cap, fromRev)
  {
    ResumeCompleteIff(all, cap, fromRev);
  }

  /** At the oldest revision itself, part of one multi-key entry may be gone. */
  lemma ResumeAtOldestMayMiss(a: Event, b: Event)
    requires a.rev == b.rev == 5
    ensures InOrder([a, b]) && LastOf([a, b], 1)[0].rev == 5 && !Complete([a, b], 1, 5)
  {
    ResumeCompleteIff([a, b], 1, 5);
  }

  // --- a resumed stream ---------------------------------------------------------------------------

  /** The queue that has missed nothing since a revision, up to the channel's capacity. */
  function Resumed(all: seq<Event>, fromRev: nat, prefix: Key): Subscriber {
    Subscriber(prefix, Take(Matching(all, fromRev, prefix), CHANNEL))
  }

  function OfferedAll(sub: Subscriber, more: seq<Event>): Subscriber
    decreases |more|
  {
    if more == [] then sub else Offered(OfferedAll(sub, more[..|more| - 1]), more[|more| - 1])
  }

  lemma ResumedNext(all: seq<Event>, ev: Event, fromRev: nat, prefix: Key)
    requires ev.rev >= fromRev
    ensures Offered(Resumed(all, fromRev, prefix), ev) == Resumed(all + [ev], fromRev, prefix)
  {
    assert (all + [ev])[..|all|] == all && (all + [ev])[|all|] == ev;
  }

  /**
   A stream resumed without a gap stays without one: until it is drained its
   queue is the first 1024 of all matching events since the revision, replayed
   and live ones alike, and all of them while they fit.
   */
  lemma {:induction false} ResumedStaysComplete(all: seq<Event>, more: seq<Event>, fromRev: nat, prefix: Key)
    requires forall i :: 0 <= i < |more| ==> more[i].rev >= fromRev
    ensures OfferedAll(Resumed(all, fromRev, prefix), more) == Resumed(all + more, fromRev, prefix)
    decreases |more|
  {
    if more == [] {
      assert all + more == all;
    } else {
      var init, ev := more[..|more| - 1], more[|more| - 1];
      ResumedStaysComplete(all, init, fromRev, prefix);
      ResumedNext(all + init, ev, fromRev, prefix);
      assert all + init + [ev] == all + more;
    }
  }
}
