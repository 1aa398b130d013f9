/** The 32-bit alarm services against an ideal scheduler that counts ticks without bound: over whole
    runs they make exactly the same callbacks, across any number of counter wraparounds. */
module AlarmRefinement {
  import opened Words
  import opened AlarmSpec

  /** The ideal scheduler: an unbounded clock and, for each registered alarm, the tick it is due at. */
  datatype Ideal = Ideal(now: nat, due: map<nat, nat>)

  datatype Event = Start(addr: nat, nticks: u32) | Stop(stopped: nat) | Tick(reply: Reply)

  // ---------------------------------------------------------------- the two machines

  /** One event on the 32-bit state: the next state and the callbacks made, in order. */
  function Step(s: State, e: Event): (State, seq<nat>) {
    match e
    case Start(addr, nticks) => (StartSpec(s, addr, nticks), [])
    case Stop(addr) => (StopSpec(s, addr), [])
    case Tick(reply) => TickSpec(s, reply)
  }

  function IdealTick(i: Ideal, reply: Reply): (Ideal, set<nat>) {
    var now := i.now + 1;
    var fired := set a | a in i.due && i.due[a] == now;
    (Ideal(now, map a | a in i.due && (a in fired ==> a in reply && reply[a] != 0)
                      :: if a in fired then now + reply[a] else i.due[a]),
     fired)
  }

  function IdealStep(i: Ideal, e: Event): (Ideal, set<nat>) {
    match e
    case Start(addr, nticks) => (i.(due := i.due[addr := i.now + nticks + 1]), {})
    case Stop(addr) => (i.(due := i.due - {addr}), {})
    case Tick(reply) => IdealTick(i, reply)
  }

  /** The callbacks of each event of a run. */
  function Calls(s: State, es: seq<Event>): (r: seq<seq<nat>>)
    ensures |r| == |es|
    decreases |es|
  {
    if es == [] then [] else [Step(s, es[0]).1] + Calls(Step(s, es[0]).0, es[1..])
  }

  function IdealCalls(i: Ideal, es: seq<Event>): (r: seq<set<nat>>)
    ensures |r| == |es|
    decreases |es|
  {
    if es == [] then [] else [IdealStep(i, es[0]).1] + IdealCalls(IdealStep(i, es[0]).0, es[1..])
  }

  /** The run makes the ideal's callbacks: event by event the same alarms, none of them twice. */
  ghost predicate Agree(s: State, i: Ideal, es: seq<Event>) {
    forall k :: 0 <= k < |es| ==>
      Elements(Calls(s, es)[k]) == IdealCalls(i, es)[k] && Distinct(Calls(s, es)[k])
  }

  // ---------------------------------------------------------------- when a start is exact

  /** The longest delay, 2^32 - 1 ticks, is kept only when it is asked for on the last tick of an epoch. */
  predicate ExactStart(now: u32, nticks: u32) {
    nticks != MAX_TICKS || now == MAX_TICKS
  }

  /** A listed alarm is never started again, and every start is exact. */
  ghost predicate Legal(i: Ideal, es: seq<Event>)
    decreases |es|
  {
    es != [] ==>
      && (es[0].Start? ==> es[0].addr !in i.due && ExactStart(i.now % W32, es[0].nticks))
      && Legal(IdealStep(i, es[0]).0, es[1..])
  }

  // ---------------------------------------------------------------- the refinement relation

  /** At clock "now" an entry stands for an alarm due at "due": the due time is less than one wrap ahead,
      kept modulo 2^32, and the rollover flag says that it lies beyond the next wrap. One more case: a full
      wrap ahead on the last tick of an epoch, where the flag is not needed. */
  ghost predicate Armed(now: nat, due: nat, e: Entry) {
    && e.time == due % W32
    && (|| (now < due < now + W32 && (e.rollover <==> due / W32 > now / W32))
        || (due == now + W32 && now % W32 == MAX_TICKS && !e.rollover))
  }

  ghost predicate AllArmed(es: seq<Entry>, now: nat, due: map<nat, nat>) {
    forall k :: 0 <= k < |es| ==> es[k].addr in due && Armed(now, due[es[k].addr], es[k])
  }

  ghost predicate Refines(s: State, i: Ideal) {
    && s.nticks == i.now % W32
    && Distinct(Addrs(s.alarms))
    && (forall a :: a in Addrs(s.alarms) <==> a in i.due)
    && AllArmed(s.alarms, i.now, i.due)
  }

  lemma Split(now: nat)
    ensures now == now / W32 * W32 + now % W32
  {
  }

  /** alt_alarm_start arms exactly when ExactStart says so. */
  lemma StartArms(now: nat, addr: nat, nticks: u32)
    ensures Armed(now, now + nticks + 1, NewEntry(addr, nticks, now % W32)) <==> ExactStart(now % W32, nticks)
  {
    var c := now % W32;
    var epoch := now / W32;
    var sum := nticks + c + 1;
    assert now + nticks + 1 == epoch * W32 + sum;
    if sum < W32 {
      assert (now + nticks + 1) / W32 == epoch && (now + nticks + 1) % W32 == sum;
    } else {
      assert (now + nticks + 1) / W32 == epoch + 1 && (now + nticks + 1) % W32 == sum - W32;
    }
  }

  // ---------------------------------------------------------------- alt_tick refines the ideal tick

  /** The due time of an alarm after the tick that moves the clock to "now". */
  function NextDue(due: nat, now: nat, answer: u32): nat {
    if due == now then now + answer else due
  }

  /** One alarm visited at clock "now + 1": called back exactly if due, dropped exactly if it answers 0. */
  lemma VisitOneRefines(e: Entry, now: nat, due: nat, reply: Reply)
    requires Armed(now, due, e)
    ensures var v := VisitOne(e, (now + 1) % W32, reply);
            && v.fired == (if due == now + 1 then [e.addr] else [])
            && (v.kept == [] <==> due == now + 1 && Answer(reply, e.addr) == 0)
            && (v.kept != [] ==> |v.kept| == 1 && v.kept[0].addr == e.addr &&
                                 Armed(now + 1, NextDue(due, now + 1, Answer(reply, e.addr)), v.kept[0]))
  {
    var n := now + 1;
    Split(now);
    Split(n);
    Split(due);
    if due == n && Answer(reply, e.addr) != 0 {
      RearmArms(n, Answer(reply, e.addr));
    }
  }

  /** The re-arming arithmetic of alt_tick is exact for every interval. */
  lemma RearmArms(now: nat, interval: u32)
    requires interval != 0
    ensures var time := (now % W32 + interval) % W32;
            Armed(now, now + interval, Entry(0, time, time < now % W32))
  {
    var sum := now % W32 + interval;
    assert now + interval == now / W32 * W32 + sum;
    if sum < W32 {
      assert (now + interval) / W32 == now / W32 && (now + interval) % W32 == sum;
    } else {
      assert (now + interval) / W32 == now / W32 + 1 && (now + interval) % W32 == sum - W32;
    }
  }

  lemma AddrsTail(es: seq<Entry>)
    requires es != []
    ensures Addrs(es) == [es[0].addr] + Addrs(es[1..])
    ensures Distinct(Addrs(es)) ==> Distinct(Addrs(es[1..])) && es[0].addr !in Addrs(es[1..])
  {
    var a := Addrs(es);
    assert a == [es[0].addr] + Addrs(es[1..]);
    assert Addrs(es[1..]) == a[1..];
  }

  /** Who is called back during the visit of a list, and how often. */
  lemma {:induction false} VisitAllFires(es: seq<Entry>, now: nat, due: map<nat, nat>, reply: Reply)
    requires Distinct(Addrs(es)) && AllArmed(es, now, due)
    ensures var fired := VisitAll(es, (now + 1) % W32, reply).fired;
            && Distinct(fired)
            && forall a :: a in fired <==> a in Addrs(es) && due[a] == now + 1
  {
    if es != [] {
      AddrsTail(es);
      VisitAllFires(es[1..], now, due, reply);
      VisitOneRefines(es[0], now, due[es[0].addr], reply);
      var rest := VisitAll(es[1..], (now + 1) % W32, reply).fired;
      if due[es[0].addr] == now + 1 {
        PrependDistinct(es[0].addr, rest);
      }
      assert VisitOne(es[0], (now + 1) % W32, reply).fired + rest
          == if due[es[0].addr] == now + 1 then [es[0].addr] + rest else rest;
    }
  }

  /** The due times after a tick. */
  function NextDues(due: map<nat, nat>, now: nat, reply: Reply): map<nat, nat> {
    map a | a in due :: NextDue(due[a], now, Answer(reply, a))
  }

  /** Who stays in the list after a visit, and with which due time. */
  lemma {:induction false} VisitAllKeeps(es: seq<Entry>, now: nat, due: map<nat, nat>, reply: Reply)
    requires Distinct(Addrs(es)) && AllArmed(es, now, due)
    ensures var kept := VisitAll(es, (now + 1) % W32, reply).kept;
            && Distinct(Addrs(kept))
            && AllArmed(kept, now + 1, NextDues(due, now + 1, reply))
            && (forall a :: a in Addrs(kept) <==>
                            a in Addrs(es) && (due[a] == now + 1 ==> Answer(reply, a) != 0))
  {
    if es != [] {
      AddrsTail(es);
      VisitAllKeeps(es[1..], now, due, reply);
      VisitOneRefines(es[0], now, due[es[0].addr], reply);
      var first := VisitOne(es[0], (now + 1) % W32, reply).kept;
      var rest := VisitAll(es[1..], (now + 1) % W32, reply).kept;
      if first == [] {
        assert first + rest == rest;
      } else {
        var all := first + rest;
        assert all[0] == first[0] && all[1..] == rest;
        AddrsTail(all);
        PrependDistinct(first[0].addr, Addrs(rest));
      }
    }
  }

  lemma TickFires(s: State, i: Ideal, reply: Reply)
    requires Refines(s, i)
    ensures Elements(TickSpec(s, reply).1) == IdealTick(i, reply).1 && Distinct(TickSpec(s, reply).1)
  {
    hide VisitAll, Armed;
    VisitAllFires(s.alarms, i.now, i.due, reply);
  }

  /** The ideal due times after a tick, by what the walk takes for the callbacks' answers. */
  lemma IdealDues(i: Ideal, reply: Reply)
    ensures var (j, now) := (IdealTick(i, reply).0, i.now + 1);
            && j.now == now
            && forall a :: (a in j.due <==> a in i.due && (i.due[a] == now ==> Answer(reply, a) != 0))
                        && (a in j.due ==> j.due[a] == NextDue(i.due[a], now, Answer(reply, a)))
  {
  }

  lemma TickRefines(s: State, i: Ideal, reply: Reply)
    requires Refines(s, i)
    ensures Refines(TickSpec(s, reply).0, IdealTick(i, reply).0)
  {
    hide VisitAll, AllArmed, Answer, Distinct, IdealTick, NextDue;
    VisitAllKeeps(s.alarms, i.now, i.due, reply);
    IdealDues(i, reply);
    var kept := TickSpec(s, reply).0.alarms;
    var due, next := IdealTick(i, reply).0.due, NextDues(i.due, i.now + 1, reply);
    assert forall a :: a in Addrs(kept) ==> a in due && due[a] == next[a];
    SameDuesArm(kept, i.now + 1, next, due);
  }

  lemma SameDuesArm(es: seq<Entry>, now: nat, dues: map<nat, nat>, dues': map<nat, nat>)
    requires AllArmed(es, now, dues)
    requires forall a :: a in Addrs(es) ==> a in dues && a in dues' && dues'[a] == dues[a]
    ensures AllArmed(es, now, dues')
  {
    hide Armed;
    assert forall k :: 0 <= k < |es| ==> es[k].addr == Addrs(es)[k];
  }

  // ---------------------------------------------------------------- start and stop refine

  lemma StartRefines(s: State, i: Ideal, addr: nat, nticks: u32)
    requires Refines(s, i) && addr !in i.due && ExactStart(i.now % W32, nticks)
    ensures Refines(StartSpec(s, addr, nticks), IdealStep(i, Start(addr, nticks)).0)
  {
    hide Armed, NewEntry;
    StartArms(i.now, addr, nticks);
    NewEntryAddr(addr, nticks, s.nticks);
    PrependRefines(s, i, NewEntry(addr, nticks, s.nticks), i.now + nticks + 1);
  }

  lemma PrependRefines(s: State, i: Ideal, e: Entry, due: nat)
    requires Refines(s, i) && e.addr !in i.due && Armed(i.now, due, e)
    ensures Refines(s.(alarms := [e] + s.alarms), i.(due := i.due[e.addr := due]))
  {
    hide Armed, Addrs, Distinct;
    PrependKeepsDistinct(e, s.alarms);
    PrependArmed(i.now, s.alarms, i.due, e, due);
  }

  lemma PrependArmed(now: nat, es: seq<Entry>, dues: map<nat, nat>, e: Entry, due: nat)
    requires AllArmed(es, now, dues) && e.addr !in dues && Armed(now, due, e)
    ensures AllArmed([e] + es, now, dues[e.addr := due])
  {
    hide Armed;
  }

  lemma NewEntryAddr(addr: nat, nticks: u32, now: u32)
    ensures NewEntry(addr, nticks, now).addr == addr
  {
  }

  lemma StopRefines(s: State, i: Ideal, addr: nat)
    requires Refines(s, i)
    ensures Refines(StopSpec(s, addr), IdealStep(i, Stop(addr)).0)
  {
    hide AllArmed;
    if addr in i.due {
      var k :| 0 <= k < |s.alarms| && Addrs(s.alarms)[k] == addr;
      WithoutAt(s.alarms, k);
      CutKeepsDistinct(s.alarms, k);
      CutAddrs(s.alarms, k);
      CutArmed(s.alarms, k, i.now, i.due);
    } else {
      WithoutAbsent(s.alarms, addr);
      assert i.due - {addr} == i.due;
    }
  }

  lemma CutArmed(es: seq<Entry>, k: nat, now: nat, due: map<nat, nat>)
    requires AllArmed(es, now, due) && Distinct(Addrs(es)) && k < |es|
    ensures AllArmed(Cut(es, k), now, due - {es[k].addr})
  {
    hide Armed;
    var cut := Cut(es, k);
    forall j | 0 <= j < |cut|
      ensures cut[j].addr in due - {es[k].addr} && Armed(now, due[cut[j].addr], cut[j])
    {
      var j' := if j < k then j else j + 1;
      assert cut[j] == es[j'] && Addrs(es)[j'] != Addrs(es)[k];
    }
  }

  lemma CutAddrs(es: seq<Entry>, k: nat)
    requires k < |es| && Distinct(Addrs(es))
    ensures forall a :: a in Addrs(Cut(es, k)) <==> a in Addrs(es) && a != es[k].addr
  {
    var all, cut := Addrs(es), Addrs(Cut(es, k));
    assert forall j :: 0 <= j < |cut| ==> cut[j] == all[if j < k then j else j + 1];
    forall a | a in all && a != es[k].addr
      ensures a in cut
    {
      var j :| 0 <= j < |all| && all[j] == a;
      assert cut[if j < k then j else j - 1] == a;
    }
  }

  // ---------------------------------------------------------------- whole runs

  lemma StepRefines(s: State, i: Ideal, e: Event)
    requires Refines(s, i)
    requires e.Start? ==> e.addr !in i.due && ExactStart(i.now % W32, e.nticks)
    ensures Refines(Step(s, e).0, IdealStep(i, e).0)
    ensures Elements(Step(s, e).1) == IdealStep(i, e).1 && Distinct(Step(s, e).1)
  {
    match e
    case Start(addr, nticks) => StartRefines(s, i, addr, nticks);
    case Stop(addr) => StopRefines(s, i, addr);
    case Tick(reply) =>
      TickFires(s, i, reply);
      TickRefines(s, i, reply);
  }

  /** Exact scheduling: over every legal run the 32-bit machine makes the ideal scheduler's callbacks,
      each at its tick and once, whatever the intervals and however often the counter wraps. */
  lemma {:induction false} SchedulingIsExact(s: State, i: Ideal, es: seq<Event>)
    requires Refines(s, i) && Legal(i, es)
    ensures Agree(s, i, es)
    decreases |es|
  {
    hide Refines, Step, IdealStep, ExactStart;
    if es != [] {
      StepRefines(s, i, es[0]);
      var s', i' := Step(s, es[0]).0, IdealStep(i, es[0]).0;
      SchedulingIsExact(s', i', es[1..]);
      forall k | 0 <= k < |es|
        ensures Elements(Calls(s, es)[k]) == IdealCalls(i, es)[k] && Distinct(Calls(s, es)[k])
      {
        if k > 0 {
          assert Calls(s, es)[k] == Calls(s', es[1..])[k - 1] && IdealCalls(i, es)[k] == IdealCalls(i', es[1..])[k - 1];
        }
      }
    }
  }

  /** From reset. */
  lemma SchedulingIsExactFromReset(es: seq<Event>)
    requires Legal(Ideal(0, map[]), es)
    ensures Agree(State(0, []), Ideal(0, map[]), es)
  {
    SchedulingIsExact(State(0, []), Ideal(0, map[]), es);
  }

  /** The condition on a start is exact: every continuation agrees with the ideal scheduler if and only if
      the delay is below 2^32 - 1 or the start is made on the last tick of an epoch. */
  lemma StartIsExactIff(s: State, i: Ideal, addr: nat, nticks: u32)
    requires Refines(s, i) && addr !in i.due
    ensures var s', i' := Step(s, Start(addr, nticks)).0, IdealStep(i, Start(addr, nticks)).0;
            (forall es :: Legal(i', es) ==> Agree(s', i', es)) <==> ExactStart(s.nticks, nticks)
  {
    var s', i' := Step(s, Start(addr, nticks)).0, IdealStep(i, Start(addr, nticks)).0;
    if ExactStart(s.nticks, nticks) {
      StartRefines(s, i, addr, nticks);
      forall es | Legal(i', es)
        ensures Agree(s', i', es)
      {
        SchedulingIsExact(s', i', es);
      }
    } else {
      var es := [Tick(map[])];
      FiresTooEarly(s, i, addr);
      assert Legal(i', es);
      assert Calls(s', es)[0] == Step(s', es[0]).1 && IdealCalls(i', es)[0] == IdealStep(i', es[0]).1;
      assert addr in Elements(Calls(s', es)[0]) && addr !in IdealCalls(i', es)[0];
      assert !Agree(s', i', es);
    }
  }

  /** With the longest delay anywhere else in an epoch the alarm goes off on the very next tick. */
  lemma FiresTooEarly(s: State, i: Ideal, addr: nat)
    requires Refines(s, i) && !ExactStart(s.nticks, MAX_TICKS)
    ensures var s', i' := StartSpec(s, addr, MAX_TICKS), IdealStep(i, Start(addr, MAX_TICKS)).0;
            addr in TickSpec(s', map[]).1 && addr !in IdealTick(i', map[]).1
  {
    hide VisitAll, Armed, AllArmed, Addrs;
    var e, now := NewEntry(addr, MAX_TICKS, s.nticks), Advance(s.nticks);
    assert e == Entry(addr, s.nticks, false);
    assert VisitOne(e, now, map[]).fired == [addr];
    FirstFires(e, s.alarms, now);
  }

  lemma FirstFires(e: Entry, es: seq<Entry>, now: u32)
    ensures VisitAll([e] + es, now, map[]).fired == VisitOne(e, now, map[]).fired + VisitAll(es, now, map[]).fired
  {
    hide VisitOne;
    assert ([e] + es)[1..] == es;
  }

  // ---------------------------------------------------------------- traversal under self-removal

  /** The alarms that are called back in a tick and answer 0. */
  function Retired(es: seq<Entry>, now: u32, reply: Reply): set<nat> {
    set a | a in VisitAll(es, now, reply).fired && Answer(reply, a) == 0
  }

  lemma VisitFiresMembers(es: seq<Entry>, now: u32, reply: Reply)
    ensures forall a :: a in VisitAll(es, now, reply).fired ==> a in Addrs(es)
  {
    if es != [] {
      VisitFiresMembers(es[1..], now, reply);
      assert Addrs(es) == [es[0].addr] + Addrs(es[1..]);
    }
  }

  /** The first alarm of a visit and the rest. */
  lemma FirstVisited(es: seq<Entry>, now: u32, reply: Reply)
    requires es != [] && Distinct(Addrs(es))
    ensures var kept := VisitAll(es, now, reply).kept;
            var rest := Addrs(VisitAll(es[1..], now, reply).kept);
            Addrs(kept) == if es[0].addr in Retired(es, now, reply) then rest else [es[0].addr] + rest
    ensures forall a :: a in Addrs(es[1..]) ==> (a in Retired(es, now, reply) <==> a in Retired(es[1..], now, reply))
  {
    hide Distinct;
    AddrsTail(es);
    VisitFiresMembers(es[1..], now, reply);
    var first, rest := VisitOne(es[0], now, reply), VisitAll(es[1..], now, reply);
    assert VisitAll(es, now, reply).fired == first.fired + rest.fired;
    AddrsJoin(first.kept, rest.kept);
  }

  lemma AddrsJoin(a: seq<Entry>, b: seq<Entry>)
    ensures Addrs(a + b) == Addrs(a) + Addrs(b)
    ensures a == [] ==> Addrs(a) == [] && Addrs(a + b) == Addrs(b)
    ensures |a| == 1 ==> Addrs(a) == [a[0].addr]
  {
  }

  /** One tick leaves the list it found minus exactly the alarms whose callback answered 0, in the same
      order; every other alarm keeps its place. */
  lemma {:induction false} TickRemovesExactlyTheRetired(es: seq<Entry>, now: u32, reply: Reply)
    requires Distinct(Addrs(es))
    ensures Addrs(VisitAll(es, now, reply).kept) == Keep(Addrs(es), Retired(es, now, reply))
  {
    hide VisitOne, Distinct, Retired;
    if es != [] {
      AddrsTail(es);
      FirstVisited(es, now, reply);
      TickRemovesExactlyTheRetired(es[1..], now, reply);
      KeepCong(Addrs(es[1..]), Retired(es[1..], now, reply), Retired(es, now, reply));
      assert Addrs(es)[1..] == Addrs(es[1..]);
    }
  }
}
