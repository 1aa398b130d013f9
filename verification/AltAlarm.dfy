/** The alarm services as the HAL implements them: alarms are structures linked into a circular doubly
    linked list through a sentinel, and one tick edits that list while it walks it. */
module AltAlarm {
  import opened Words
  import opened AlarmSpec

  const EINVAL := 22
  const ENOTSUP := 134

  class Alarm {
    const addr: nat
    var next: Alarm
    var previous: Alarm
    var time: u32
    var rollover: bool

    constructor (addr: nat)
      ensures this.addr == addr && next == this == previous
    {
      this.addr := addr;
      next, previous := this, this;
      time, rollover := 0, false;
    }
  }

  /** "head" and "nodes" form a circular list: every link points to its neighbour, both ways. */
  ghost predicate Linked(head: Alarm, nodes: seq<Alarm>)
    reads head, nodes
  {
    && head !in nodes
    && (forall i, j :: 0 <= i < j < |nodes| ==> nodes[i] != nodes[j])
    && head.next == At(head, nodes, 0)
    && head.previous == At(head, nodes, |nodes| - 1)
    && (forall i {:trigger nodes[i].next} :: 0 <= i < |nodes| ==> nodes[i].next == At(head, nodes, i + 1))
    && (forall i {:trigger nodes[i].previous} :: 0 <= i < |nodes| ==> nodes[i].previous == At(head, nodes, i - 1))
  }

  /** The node at position "i", counting the sentinel as the one before the first and after the last. */
  ghost function At(head: Alarm, nodes: seq<Alarm>, i: int): Alarm {
    if 0 <= i < |nodes| then nodes[i] else head
  }

  /** The walk from "head" goes round among the first k + 1 nodes and never comes back to "head". */
  ghost predicate Trapped(head: Alarm, nodes: seq<Alarm>, k: nat)
    reads head, nodes
  {
    && k < |nodes|
    && head !in nodes
    && head.next == nodes[k]
    && nodes[k].next == nodes[0]
    && forall i {:trigger nodes[i].next} :: 0 <= i < k ==> nodes[i].next == nodes[i + 1]
  }

  /** alt_llist_insert: links "entry" in as the first element after the list head. On an entry that is listed
      already it ties the front of the list into a ring. */
  method LlistInsert(list: Alarm, entry: Alarm, ghost nodes: seq<Alarm>, ghost owned: set<Alarm>)
    requires Linked(list, nodes) && (forall i :: 0 <= i < |nodes| ==> nodes[i] in owned) && entry != list
    modifies list`next, list`previous, owned`next, owned`previous, entry`next, entry`previous
    ensures entry !in nodes ==> Linked(list, [entry] + nodes)
    ensures forall k :: 0 <= k < |nodes| && nodes[k] == entry ==> Trapped(list, nodes, k)
  {
    entry.previous := list;
    entry.next := list.next;
    list.next.previous := entry;
    list.next := entry;
  }

  /** alt_llist_remove: unlinks the k-th node, or a node that is in no list (k beyond the nodes), and
      leaves it pointing to itself. */
  method LlistRemove(entry: Alarm, ghost list: Alarm, ghost nodes: seq<Alarm>, ghost k: nat, ghost owned: set<Alarm>)
    requires Linked(list, nodes) && (forall i :: 0 <= i < |nodes| ==> nodes[i] in owned)
    requires if k < |nodes| then nodes[k] == entry
             else entry !in nodes && entry != list && entry.next == entry == entry.previous
    modifies list`next, list`previous, owned`next, owned`previous, entry`next, entry`previous
    ensures Linked(list, Cut(nodes, k)) && entry.next == entry == entry.previous
  {
    hide Cut;
    CutNeighbours(list, nodes, k);
    entry.next.previous := entry.previous;
    entry.previous.next := entry.next;
    entry.previous := entry;
    entry.next := entry;
  }

  lemma FirstIsNext(head: Alarm, nodes: seq<Alarm>)
    requires Linked(head, nodes)
    ensures head.next == At(head, nodes, 0)
  {
  }

  /** Coming to the head means having passed every node. */
  lemma HeadIsLast(head: Alarm, nodes: seq<Alarm>, k: nat)
    requires Linked(head, nodes)
    ensures At(head, nodes, k) == head ==> k >= |nodes|
  {
  }

  lemma CutDropsIt(head: Alarm, nodes: seq<Alarm>, k: nat)
    requires Linked(head, nodes)
    ensures k < |nodes| ==> nodes[k] !in Cut(nodes, k)
  {
  }

  /** The nodes left once the k-th is cut out, and who stands next to whom among them. */
  lemma CutNeighbours(head: Alarm, nodes: seq<Alarm>, k: nat)
    requires head !in nodes && forall i, j :: 0 <= i < j < |nodes| ==> nodes[i] != nodes[j]
    ensures var cut := Cut(nodes, k);
            && (k >= |nodes| ==> cut == nodes)
            && head !in cut
            && (forall i, j :: 0 <= i < j < |cut| ==> cut[i] != cut[j])
            && (k < |nodes| ==>
                  && |cut| == |nodes| - 1
                  && (forall i :: 0 <= i < |cut| ==> cut[i] == nodes[if i < k then i else i + 1])
                  && forall i :: -1 <= i <= |cut| ==> At(head, cut, i) == At(head, nodes, if i < k then i else i + 1))
  {
  }

  class AlarmSystem {
    const head: Alarm                  // the sentinel, alt_alarm_list
    var nticks: u32                    // _alt_nticks
    var tickRate: u32                  // _alt_tick_rate
    ghost var nodes: seq<Alarm>        // the registered alarms in list order
    ghost var entries: seq<Entry>      // what their fields hold
    ghost var owned: set<Alarm>        // the structures the list may write to

    ghost predicate Valid()
      reads this, head, nodes
    {
      && Linked(head, nodes)
      && |entries| == |nodes|
      && (forall i :: 0 <= i < |nodes| ==> nodes[i] in owned)
      && (forall i :: 0 <= i < |nodes| ==> entries[i] == Entry(nodes[i].addr, nodes[i].time, nodes[i].rollover))
      && Distinct(Addrs(entries))
    }

    ghost function View(): State
      reads this
    {
      State(nticks, entries)
    }

    constructor (tickRate: u32)
      ensures Valid() && fresh(head)
      ensures View() == State(0, []) && this.tickRate == tickRate
    {
      head := new Alarm(0);
      nticks := 0;
      this.tickRate := tickRate;
      nodes, entries, owned := [], [], {};
    }

    /** alt_alarm_start: registers "alarm" at the front of the list. An alarm that is listed already is linked in
        a second time, which traps every later walk of the list. */
    method Start(alarm: Alarm?, nticks: u32) returns (rc: int)
      requires Valid()
      requires alarm != null ==> alarm != head && (alarm !in nodes ==> alarm.addr !in Addrs(View().alarms))
      modifies this`nodes, this`entries, this`owned, head`next, head`previous, owned`next, owned`previous, alarm
      ensures tickRate == 0 ==> rc == -ENOTSUP && Valid() && View() == old(View()) && nodes == old(nodes)
      ensures tickRate != 0 && alarm == null ==>
                rc == -EINVAL && Valid() && View() == old(View()) && nodes == old(nodes)
      ensures tickRate != 0 && alarm != null && old(alarm !in nodes) ==>
                && rc == 0 && Valid()
                && View() == StartSpec(old(View()), alarm.addr, nticks) && nodes == [alarm] + old(nodes)
      ensures tickRate != 0 && alarm != null && old(alarm in nodes) ==>
                rc == 0 && exists k :: 0 <= k < |nodes| && nodes[k] == alarm && Trapped(head, nodes, k)
    {
      if tickRate == 0 {
        return -ENOTSUP;
      }
      if alarm == null {
        return -EINVAL;
      }
      hide Linked, Distinct, Addrs, Trapped, NewEntry;
      Arm(alarm, nticks, this.nticks);
      Register(alarm);
      return 0;
    }

    /** The due time of a new alarm and its flag. */
    static method Arm(alarm: Alarm, nticks: u32, now: u32)
      modifies alarm`time, alarm`rollover
      ensures Entry(alarm.addr, alarm.time, alarm.rollover) == NewEntry(alarm.addr, nticks, now)
    {
      alarm.time := (nticks + now + 1) % W32;
      if alarm.time < now {
        alarm.rollover := true;
      } else {
        alarm.rollover := false;
      }
    }

    method Register(alarm: Alarm)
      requires Linked(head, nodes) && (forall i :: 0 <= i < |nodes| ==> nodes[i] in owned) && alarm != head
      requires alarm !in nodes ==> Valid() && alarm.addr !in Addrs(entries)
      modifies this`nodes, this`entries, this`owned, head`next, head`previous, owned`next, owned`previous
      modifies alarm`next, alarm`previous
      ensures old(alarm !in nodes) ==>
                && Valid()
                && nodes == [alarm] + old(nodes)
                && entries == [Entry(alarm.addr, alarm.time, alarm.rollover)] + old(entries)
      ensures old(alarm in nodes) ==>
                nodes == old(nodes) && forall k :: 0 <= k < |nodes| && nodes[k] == alarm ==> Trapped(head, nodes, k)
    {
      ghost var e := Entry(alarm.addr, alarm.time, alarm.rollover);
      LlistInsert(head, alarm, nodes, owned);
      if alarm !in nodes {
        PrependKeepsDistinct(e, entries);
        nodes, entries, owned := [alarm] + nodes, [e] + entries, owned + {alarm};
      }
    }

    /** alt_alarm_stop: takes the alarm out of the list; harmless on an alarm that is in no list. */
    method Stop(alarm: Alarm)
      requires Valid()
      requires alarm in nodes || (alarm != head && alarm.next == alarm == alarm.previous)
      modifies this`nodes, this`entries, this`owned, head`next, head`previous, owned`next, owned`previous
      modifies alarm`next, alarm`previous
      ensures Valid()
      ensures alarm !in nodes && alarm !in owned && alarm.next == alarm == alarm.previous
      ensures owned <= old(owned)
      ensures forall k :: 0 <= k < |old(nodes)| && old(nodes)[k] == alarm ==> nodes == Cut(old(nodes), k)
      ensures old(alarm in nodes) ==> View() == StopSpec(old(View()), alarm.addr)
      ensures old(alarm !in nodes) ==> View() == old(View()) && nodes == old(nodes)
    {
      ghost var k := |nodes|;
      if alarm in nodes {
        k :| 0 <= k < |nodes| && nodes[k] == alarm;
      }
      Unlink(alarm, k);
      if k < old(|nodes|) {
        WithoutAt(old(entries), k);
      }
    }

    method Unlink(alarm: Alarm, ghost k: nat)
      requires Valid()
      requires if k < |nodes| then nodes[k] == alarm
               else alarm !in nodes && alarm != head && alarm.next == alarm == alarm.previous
      modifies this`nodes, this`entries, this`owned, head`next, head`previous, owned`next, owned`previous
      modifies alarm`next, alarm`previous
      ensures Valid()
      ensures nodes == Cut(old(nodes), k) && entries == Cut(old(entries), k)
      ensures alarm !in nodes && alarm !in owned && alarm.next == alarm == alarm.previous
      ensures owned <= old(owned)
    {
      hide Linked, Distinct, Addrs;
      CutDropsIt(head, nodes, k);
      CutKeepsDistinct(entries, k);
      LlistRemove(alarm, head, nodes, k, owned);
      nodes, entries, owned := Cut(nodes, k), Cut(entries, k), owned - {alarm};
    }

    /** alt_tick: advances the counter and calls back every alarm that is due, walking the list while
        alarms unlink themselves from it. Returns the addresses called back, in order. */
    method Tick(reply: Reply) returns (fired: seq<nat>)
      requires Valid()
      modifies this`nticks, this`nodes, this`entries, this`owned, head, owned
      ensures Valid()
      ensures View() == TickSpec(old(View()), reply).0
      ensures fired == TickSpec(old(View()), reply).1
    {
      hide VisitOne, VisitAll, WalkStep, WalkEnd, TickSpec, Linked, Distinct, Addrs, List;
      FirstIsNext(head, nodes);
      WalkBegins(entries);
      var alarm := head.next;
      nticks := (nticks + 1) % W32;
      fired := [];
      ghost var w := Walk([], entries, []);
      while alarm != head
        invariant Valid() && nticks == Advance(old(nticks))
        invariant owned <= old(owned)
        invariant entries == List(w) && alarm == At(head, nodes, |w.kept|) && fired == w.fired
        invariant WalkEnd(w, nticks, reply) == WalkEnd(Walk([], old(entries), []), nticks, reply)
        decreases |w.rest|
      {
        var called, next;
        called, next, w := Step(alarm, w, reply);
        if called {
          fired := fired + [alarm.addr];
        }
        alarm := next;
      }
      HeadIsLast(head, nodes, |w.kept|);
      TickIsWalk(old(View()), reply, w);
    }

    /** The loop body of alt_tick, for the alarm the walk has reached; "next" is read before the callback. */
    method Step(alarm: Alarm, ghost w: Walk, reply: Reply)
      returns (called: bool, next: Alarm, ghost after: Walk)
      requires Valid() && entries == List(w) && |w.kept| < |nodes| && alarm == nodes[|w.kept|]
      modifies this`nodes, this`entries, this`owned, head, owned
      ensures Valid() && nticks == old(nticks) && owned <= old(owned)
      ensures |after.rest| < |w.rest| && WalkEnd(after, nticks, reply) == WalkEnd(w, nticks, reply)
      ensures entries == List(after) && next == At(head, nodes, |after.kept|)
      ensures after.fired == if called then w.fired + [alarm.addr] else w.fired
    {
      hide VisitOne, WalkEnd, Linked, Distinct, Addrs;
      assert entries[|w.kept|] == w.rest[0];
      called, next := Process(alarm, |w.kept|, reply);
      WalkStepList(w, nticks, reply, entries);
      after := WalkStep(w, nticks, reply);
    }

    /** Reads "next", calls the k-th alarm back if it is due and takes it out of the list if it asks for that. */
    method Process(alarm: Alarm, ghost k: nat, reply: Reply)
      returns (called: bool, next: Alarm)
      requires Valid() && k < |nodes| && nodes[k] == alarm
      modifies this`nodes, this`entries, this`owned, head, owned
      ensures Valid() && nticks == old(nticks) && owned <= old(owned)
      ensures var v := VisitOne(old(entries)[k], nticks, reply);
              && called == (v.fired != [])
              && entries == (if v.kept == [] then Cut(old(entries), k) else old(entries)[k := v.kept[0]])
              && next == At(head, nodes, k + |v.kept|)
    {
      next := alarm.next;
      var stop;
      called, stop := Poll(alarm, nticks, reply);
      Refresh(alarm, k);
      if stop {
        Unlink(alarm, k);
      }
    }

    /** Records what the k-th alarm's fields hold now. */
    ghost method Refresh(alarm: Alarm, k: nat)
      requires Linked(head, nodes) && (forall i :: 0 <= i < |nodes| ==> nodes[i] in owned)
      requires |entries| == |nodes| && k < |nodes| && nodes[k] == alarm
      requires forall i :: 0 <= i < |nodes| && i != k ==>
                 entries[i] == Entry(nodes[i].addr, nodes[i].time, nodes[i].rollover)
      requires Distinct(Addrs(entries)) && entries[k].addr == alarm.addr
      modifies this`entries
      ensures Valid()
      ensures entries == old(entries)[k := Entry(alarm.addr, alarm.time, alarm.rollover)]
    {
      entries := entries[k := Entry(alarm.addr, alarm.time, alarm.rollover)];
      UpdateKeepsDistinct(old(entries), k, entries[k]);
    }

    /** Calls back one alarm if it is due: says whether it was called and whether it asked to be stopped. */
    static method Poll(alarm: Alarm, nticks: u32, reply: Reply) returns (called: bool, stop: bool)
      modifies alarm`time, alarm`rollover
      ensures var v := VisitOne(Entry(alarm.addr, old(alarm.time), old(alarm.rollover)), nticks, reply);
              && called == (v.fired != [])
              && stop == (v.kept == [])
              && (!stop ==> v.kept == [Entry(alarm.addr, alarm.time, alarm.rollover)])
    {
      called, stop := false, false;
      if alarm.rollover && nticks == 0 {
        alarm.rollover := false;
      }
      if alarm.time <= nticks && !alarm.rollover {
        var nextCallback := Answer(reply, alarm.addr);
        called := true;
        if nextCallback == 0 {
          stop := true;
        } else {
          alarm.time := (alarm.time + nextCallback) % W32;
          if alarm.time < nticks {
            alarm.rollover := true;
          }
        }
      }
    }
  }

  /** Where "n" next words lead from "p", as long as they stay on the head and the nodes. */
  ghost function Follow(head: Alarm, nodes: seq<Alarm>, p: Alarm, n: nat): Alarm
    reads head, nodes
  {
    if n == 0 || (p != head && p !in nodes) then p else Follow(head, nodes, p.next, n - 1)
  }

  /** Starting a listed alarm is fatal: however far the walk goes, it never reaches the head again. */
  lemma {:induction false} TrappedForEver(head: Alarm, nodes: seq<Alarm>, k: nat, i: nat, n: nat)
    requires Trapped(head, nodes, k) && i <= k
    ensures Follow(head, nodes, nodes[i], n) in nodes && Follow(head, nodes, nodes[i], n) != head
    decreases n
  {
    if n > 0 {
      TrappedForEver(head, nodes, k, if i < k then i + 1 else 0, n - 1);
    }
  }
}
