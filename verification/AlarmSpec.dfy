/** What the alarm services do to their state, as functions on values: the tick counter and the alarm
    list exactly as the C code keeps them (32-bit words and a one-bit rollover flag). */
module AlarmSpec {
  import opened Words

  const MAX_TICKS := W32 - 1

  /** One registered alarm: the address that identifies it, its due time and its rollover flag. */
  datatype Entry = Entry(addr: nat, time: u32, rollover: bool)

  /** The tick counter and the alarm list in list order. */
  datatype State = State(nticks: u32, alarms: seq<Entry>)

  /** What each alarm's callback returns if it is called during one tick; 0 for alarms not listed. */
  type Reply = map<nat, u32>

  function Answer(reply: Reply, addr: nat): u32 {
    if addr in reply then reply[addr] else 0
  }

  /** The alarms left in the list and the addresses called back, both in list order. */
  datatype Visited = Visited(kept: seq<Entry>, fired: seq<nat>)

  function Addrs(es: seq<Entry>): (r: seq<nat>)
    ensures |r| == |es|
    ensures forall i :: 0 <= i < |es| ==> r[i] == es[i].addr
  {
    seq(|es|, i requires 0 <= i < |es| => es[i].addr)
  }

  /** A sequence without its k-th element; itself when there is no such element. */
  function Cut<T>(s: seq<T>, k: nat): (r: seq<T>)
    ensures k >= |s| ==> r == s
    ensures k < |s| ==> |r| == |s| - 1 && forall i :: 0 <= i < |r| ==> r[i] == s[if i < k then i else i + 1]
  {
    if k < |s| then s[..k] + s[k + 1..] else s
  }

  /** The elements of "s" outside "gone", in order. */
  function Keep(s: seq<nat>, gone: set<nat>): seq<nat> {
    if s == [] then [] else (if s[0] in gone then [] else [s[0]]) + Keep(s[1..], gone)
  }

  lemma {:induction false} KeepCong(s: seq<nat>, g1: set<nat>, g2: set<nat>)
    requires forall a :: a in s ==> (a in g1 <==> a in g2)
    ensures Keep(s, g1) == Keep(s, g2)
  {
    if s != [] {
      KeepCong(s[1..], g1, g2);
    }
  }

  lemma {:induction false} KeepMembers(s: seq<nat>, gone: set<nat>)
    ensures forall a :: a in Keep(s, gone) <==> a in s && a !in gone
    ensures Distinct(s) ==> Distinct(Keep(s, gone))
  {
    if s != [] {
      KeepMembers(s[1..], gone);
      assert s == [s[0]] + s[1..];
      if Distinct(s) {
        TailDistinct(s);
        if s[0] !in gone {
          PrependDistinct(s[0], Keep(s[1..], gone));
        }
      }
      hide Distinct;
      assert Keep(s, gone) == (if s[0] in gone then [] else [s[0]]) + Keep(s[1..], gone);
    }
  }

  lemma TailDistinct(s: seq<nat>)
    requires s != [] && Distinct(s)
    ensures Distinct(s[1..]) && s[0] !in s[1..]
  {
    assert forall i :: 0 <= i < |s| - 1 ==> s[1..][i] == s[i + 1];
  }

  lemma {:induction false} KeepTwice(s: seq<nat>, g1: set<nat>, g2: set<nat>)
    ensures Keep(Keep(s, g1), g2) == Keep(s, g1 + g2)
  {
    if s != [] {
      KeepTwice(s[1..], g1, g2);
      if s[0] in g1 {
        assert Keep(s, g1) == Keep(s[1..], g1);
      } else {
        assert Keep(s, g1)[0] == s[0] && Keep(s, g1)[1..] == Keep(s[1..], g1);
      }
    }
  }

  // ---------------------------------------------------------------- alt_alarm_start, alt_alarm_stop

  function NewEntry(addr: nat, nticks: u32, now: u32): Entry {
    var time := (nticks + now + 1) % W32;
    Entry(addr, time, time < now)
  }

  function StartSpec(s: State, addr: nat, nticks: u32): State {
    s.(alarms := [NewEntry(addr, nticks, s.nticks)] + s.alarms)
  }

  function Without(es: seq<Entry>, addr: nat): seq<Entry> {
    if es == [] then []
    else if es[|es| - 1].addr == addr then Without(es[..|es| - 1], addr)
    else Without(es[..|es| - 1], addr) + [es[|es| - 1]]
  }

  function StopSpec(s: State, addr: nat): State {
    s.(alarms := Without(s.alarms, addr))
  }

  lemma AddrsPrepend(e: Entry, es: seq<Entry>)
    ensures Addrs([e] + es) == [e.addr] + Addrs(es)
  {
  }

  lemma PrependKeepsDistinct(e: Entry, es: seq<Entry>)
    requires Distinct(Addrs(es)) && e.addr !in Addrs(es)
    ensures Addrs([e] + es) == [e.addr] + Addrs(es) && Distinct(Addrs([e] + es))
  {
    hide Addrs, Distinct;
    AddrsPrepend(e, es);
    PrependDistinct(e.addr, Addrs(es));
  }

  lemma UpdateKeepsDistinct(es: seq<Entry>, k: nat, e: Entry)
    requires Distinct(Addrs(es)) && k < |es| && e.addr == es[k].addr
    ensures Distinct(Addrs(es[k := e]))
  {
    assert Addrs(es[k := e]) == Addrs(es);
  }

  lemma {:induction false} WithoutAbsent(es: seq<Entry>, addr: nat)
    requires addr !in Addrs(es)
    ensures Without(es, addr) == es
  {
    hide Addrs;
    if es != [] {
      AddrsInit(es);
      WithoutAbsent(es[..|es| - 1], addr);
    }
  }

  lemma AddrsInit(es: seq<Entry>)
    requires es != []
    ensures var init, last := es[..|es| - 1], es[|es| - 1];
            && Addrs(es) == Addrs(init) + [last.addr]
            && (Distinct(Addrs(es)) ==> Distinct(Addrs(init)) && last.addr !in Addrs(init))
  {
    var r, init := Addrs(es), es[..|es| - 1];
    assert r[..|es| - 1] == Addrs(init);
    assert r[|es| - 1] == es[|es| - 1].addr;
  }

  lemma CutInit(es: seq<Entry>, k: nat)
    requires k < |es|
    ensures var init, last := es[..|es| - 1], es[|es| - 1];
            Cut(es, k) == if k == |es| - 1 then init else Cut(init, k) + [last]
  {
  }

  lemma {:induction false} WithoutAt(es: seq<Entry>, k: nat)
    requires k < |es| && Distinct(Addrs(es))
    ensures Without(es, es[k].addr) == Cut(es, k)
  {
    hide Addrs, Distinct, Cut;
    AddrsInit(es);
    CutInit(es, k);
    var init := es[..|es| - 1];
    if k == |es| - 1 {
      WithoutAbsent(init, es[k].addr);
    } else {
      assert Addrs(init)[k] == init[k].addr;
      WithoutAt(init, k);
    }
  }

  lemma CutKeepsDistinct(es: seq<Entry>, k: nat)
    requires Distinct(Addrs(es))
    ensures Distinct(Addrs(Cut(es, k)))
  {
    var r := Addrs(Cut(es, k));
    assert k < |es| ==> forall i :: 0 <= i < |r| ==> r[i] == Addrs(es)[if i < k then i else i + 1];
  }

  // ---------------------------------------------------------------- alt_tick

  function VisitOne(e: Entry, now: u32, reply: Reply): (v: Visited)
    ensures |v.kept| <= 1 && (v.fired == [] || v.fired == [e.addr])
  {
    var rollover := e.rollover && now != 0;
    if e.time <= now && !rollover then
      var next := Answer(reply, e.addr);
      if next == 0 then
        Visited([], [e.addr])
      else
        var time := (e.time + next) % W32;
        Visited([Entry(e.addr, time, time < now)], [e.addr])
    else
      Visited([e.(rollover := rollover)], [])
  }

  function VisitAll(es: seq<Entry>, now: u32, reply: Reply): Visited {
    if es == [] then
      Visited([], [])
    else
      var first := VisitOne(es[0], now, reply);
      var rest := VisitAll(es[1..], now, reply);
      Visited(first.kept + rest.kept, first.fired + rest.fired)
  }

  function Advance(nticks: u32): u32 {
    (nticks + 1) % W32
  }

  function TickSpec(s: State, reply: Reply): (State, seq<nat>) {
    var now := Advance(s.nticks);
    var v := VisitAll(s.alarms, now, reply);
    (State(now, v.kept), v.fired)
  }

  /** A walk over an alarm list: the entries kept so far, those still ahead, the addresses called back. */
  datatype Walk = Walk(kept: seq<Entry>, rest: seq<Entry>, fired: seq<nat>)

  function List(w: Walk): (r: seq<Entry>)
    ensures |r| == |w.kept| + |w.rest|
  {
    w.kept + w.rest
  }

  lemma WalkBegins(es: seq<Entry>)
    ensures List(Walk([], es, [])) == es
  {
  }

  function WalkStep(w: Walk, now: u32, reply: Reply): (r: Walk)
    requires w.rest != []
    ensures |r.rest| == |w.rest| - 1
  {
    var v := VisitOne(w.rest[0], now, reply);
    Walk(w.kept + v.kept, w.rest[1..], w.fired + v.fired)
  }

  /** Where the walk ends. */
  function WalkEnd(w: Walk, now: u32, reply: Reply): (r: Walk)
    ensures r.rest == []
    decreases |w.rest|
  {
    if w.rest == [] then w else WalkEnd(WalkStep(w, now, reply), now, reply)
  }

  lemma {:induction false} WalkEndsInVisit(w: Walk, now: u32, reply: Reply)
    ensures var v := VisitAll(w.rest, now, reply);
            WalkEnd(w, now, reply) == Walk(w.kept + v.kept, [], w.fired + v.fired)
    decreases |w.rest|
  {
    if w.rest != [] {
      WalkEndsInVisit(WalkStep(w, now, reply), now, reply);
    }
  }

  lemma TickIsWalk(s: State, reply: Reply, w: Walk)
    requires w.rest == []
    requires WalkEnd(w, Advance(s.nticks), reply) == WalkEnd(Walk([], s.alarms, []), Advance(s.nticks), reply)
    ensures TickSpec(s, reply) == (State(Advance(s.nticks), List(w)), w.fired)
  {
    WalkEndsInVisit(Walk([], s.alarms, []), Advance(s.nticks), reply);
    var v := VisitAll(s.alarms, Advance(s.nticks), reply);
    assert [] + v.kept == v.kept && [] + v.fired == v.fired && List(w) == w.kept;
  }

  /** Replacing the entry that follows "w.kept" by what its visit keeps gives the list after the step. */
  lemma WalkStepList(w: Walk, now: u32, reply: Reply, after: seq<Entry>)
    requires w.rest != []
    requires var v := VisitOne(w.rest[0], now, reply);
             after == if v.kept == [] then Cut(List(w), |w.kept|) else List(w)[|w.kept| := v.kept[0]]
    ensures after == List(WalkStep(w, now, reply))
    ensures WalkEnd(WalkStep(w, now, reply), now, reply) == WalkEnd(w, now, reply)
  {
    var v := VisitOne(w.rest[0], now, reply);
    Splice(w.kept, w.rest, v.kept);
  }

  lemma Splice(kept: seq<Entry>, rest: seq<Entry>, middle: seq<Entry>)
    requires rest != [] && |middle| <= 1
    ensures (kept + middle) + rest[1..] ==
            if middle == [] then Cut(kept + rest, |kept|) else (kept + rest)[|kept| := middle[0]]
  {
  }
}
