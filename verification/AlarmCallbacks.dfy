/** What a callback may do to the alarm list while alt_tick is walking it: start and stop alarms, its own and
    others. The walk goes on from the node it read before the callback, so it matters what became of that one. */
module AlarmCallbacks {
  import opened Words
  import opened AlarmSpec
  import AltAlarm

  /** The list head; alarms have other addresses. */
  const HEAD := 0

  /** A start of an alarm that is in no list, or a stop of any alarm. */
  datatype Act = Begin(addr: nat) | End(addr: nat)

  /** A started alarm goes to the front of the list. */
  function Do(list: seq<nat>, act: Act): seq<nat> {
    match act
    case Begin(a) => [a] + list
    case End(a) => Keep(list, {a})
  }

  function DoAll(list: seq<nat>, acts: seq<Act>): seq<nat> {
    if acts == [] then list else Do(DoAll(list, acts[..|acts| - 1]), acts[|acts| - 1])
  }

  /** No alarm is started while it is listed. */
  ghost predicate Legal(list: seq<nat>, acts: seq<Act>) {
    acts != [] ==>
      && Legal(list, acts[..|acts| - 1])
      && var act := acts[|acts| - 1]; act.Begin? ==> act.addr != HEAD && act.addr !in DoAll(list, acts[..|acts| - 1])
  }

  predicate Stopped(acts: seq<Act>, a: nat) {
    End(a) in acts
  }

  /** The next word of a node: its successor in the list, the head after the last; a node that was taken out of
      the list points to itself. */
  function Next(list: seq<nat>, p: nat): nat {
    if list == [] then p
    else if list[0] == p then (if |list| == 1 then HEAD else list[1])
    else Next(list[1..], p)
  }

  /** Following the next words from "p", the walk visits exactly "s" and then reaches the head. */
  ghost predicate Visits(list: seq<nat>, p: nat, s: seq<nat>)
    decreases s
  {
    if s == [] then p == HEAD else p != HEAD && s[0] == p && Visits(list, Next(list, p), s[1..])
  }

  /** The alarms behind the one called back that no act has stopped, in order. */
  function Left(behind: seq<nat>, acts: seq<Act>): seq<nat> {
    if acts == [] then behind
    else
      var rest := Left(behind, acts[..|acts| - 1]);
      match acts[|acts| - 1]
      case Begin(_) => rest
      case End(a) => Keep(rest, {a})
  }

  // ---------------------------------------------------------------- the list under the acts

  lemma DropFacts(list: seq<nat>, a: nat)
    ensures a !in Keep(list, {a}) && forall x :: x in Keep(list, {a}) <==> x in list && x != a
    ensures Distinct(list) ==> Distinct(Keep(list, {a}))
    ensures a !in list ==> Keep(list, {a}) == list
    ensures list != [] && list[0] != a ==> Keep(list, {a}) != [] && Keep(list, {a})[0] == list[0]
  {
    hide Distinct;
    KeepMembers(list, {a});
    if a !in list {
      KeepCong(list, {a}, {});
      KeepAll(list);
    }
  }

  lemma {:induction false} DropJoin(front: seq<nat>, back: seq<nat>, a: nat)
    ensures Keep(front + back, {a}) == Keep(front, {a}) + Keep(back, {a})
  {
    if front == [] {
      assert front + back == back;
    } else {
      assert (front + back)[0] == front[0] && (front + back)[1..] == front[1..] + back;
      DropJoin(front[1..], back, a);
    }
  }

  /** After the acts the list is some front part followed by what is left of the alarms behind. */
  lemma {:induction false} ListSplits(front: seq<nat>, behind: seq<nat>, acts: seq<Act>) returns (front': seq<nat>)
    requires Distinct(front + behind) && HEAD !in front + behind && Legal(front + behind, acts)
    ensures DoAll(front + behind, acts) == front' + Left(behind, acts)
    ensures Distinct(front' + Left(behind, acts)) && HEAD !in front' + Left(behind, acts)
  {
    if acts == [] {
      front' := front;
    } else {
      var init, act := acts[..|acts| - 1], acts[|acts| - 1];
      var f := ListSplits(front, behind, init);
      var rest := Left(behind, init);
      match act {
        case Begin(a) =>
          front' := [a] + f;
          assert front' + rest == [a] + (f + rest);
          PrependDistinct(a, f + rest);
        case End(a) =>
          front' := Keep(f, {a});
          DropJoin(f, rest, a);
          DropFacts(f + rest, a);
      }
    }
  }

  /** From any node of a list the walk visits the list from there on. */
  lemma {:induction false} VisitsSuffix(front: seq<nat>, back: seq<nat>)
    requires Distinct(front + back) && HEAD !in front + back
    ensures Visits(front + back, if back == [] then HEAD else back[0], back)
    decreases back
  {
    if back != [] {
      NextInList(front, back);
      assert front + back == (front + [back[0]]) + back[1..];
      VisitsSuffix(front + [back[0]], back[1..]);
    }
  }

  lemma {:induction false} NextInList(front: seq<nat>, back: seq<nat>)
    requires Distinct(front + back) && back != []
    ensures Next(front + back, back[0]) == if |back| == 1 then HEAD else back[1]
  {
    if front == [] {
      assert front + back == back;
    } else {
      var list := front + back;
      assert list[0] == front[0] && list[1..] == front[1..] + back && list[|front|] == back[0];
      assert Distinct(list[1..]) by { assert forall i :: 0 <= i < |list[1..]| ==> list[1..][i] == list[i + 1]; }
      NextInList(front[1..], back);
    }
  }

  lemma {:induction false} NextUnlisted(list: seq<nat>, p: nat)
    requires p !in list
    ensures Next(list, p) == p
  {
    if list != [] {
      NextUnlisted(list[1..], p);
    }
  }

  lemma {:induction false} LeftFacts(behind: seq<nat>, acts: seq<Act>)
    requires behind != []
    ensures Stopped(acts, behind[0]) ==> behind[0] !in Left(behind, acts)
    ensures !Stopped(acts, behind[0]) ==> Left(behind, acts) != [] && Left(behind, acts)[0] == behind[0]
  {
    if acts != [] {
      var init, act := acts[..|acts| - 1], acts[|acts| - 1];
      assert acts == init + [act];
      LeftFacts(behind, init);
      if act.End? {
        DropFacts(Left(behind, init), act.addr);
      }
    }
  }

  // ---------------------------------------------------------------- what a callback may do

  /** While the alarm at "front"'s end is called back, the node behind it has been read. Whatever the callback
      starts and stops, its own alarm included, the walk goes on to visit exactly the alarms behind that were not
      stopped, each once and in order, and none that was started, if and only if it did not stop the very next
      one. */
  lemma CallbackSafeIff(front: seq<nat>, behind: seq<nat>, acts: seq<Act>)
    requires Distinct(front + behind) && HEAD !in front + behind && Legal(front + behind, acts)
    ensures var next := if behind == [] then HEAD else behind[0];
            Visits(DoAll(front + behind, acts), next, Left(behind, acts)) <==> behind == [] || !Stopped(acts, behind[0])
  {
    hide Visits, DoAll, Legal;
    var front' := ListSplits(front, behind, acts);
    VisitsSuffix(front', Left(behind, acts));
    if behind == [] {
      LeftNothing(acts);
    } else {
      LeftFacts(behind, acts);
      if Stopped(acts, behind[0]) {
        NotVisited(DoAll(front + behind, acts), behind[0], Left(behind, acts));
      }
    }
  }

  lemma {:induction false} LeftNothing(acts: seq<Act>)
    ensures Left([], acts) == []
  {
    if acts != [] {
      LeftNothing(acts[..|acts| - 1]);
    }
  }

  lemma NotVisited(list: seq<nat>, p: nat, s: seq<nat>)
    requires p !in s && p != HEAD
    ensures !Visits(list, p, s)
  {
  }

  /** A next alarm that was stopped and not started again strands the walk: it never reaches the head. */
  lemma {:induction false} StoppedNextStrands(list: seq<nat>, p: nat, s: seq<nat>)
    requires p != HEAD && p !in list
    ensures !Visits(list, p, s)
    decreases s
  {
    if s != [] {
      NextUnlisted(list, p);
      StoppedNextStrands(list, p, s[1..]);
    }
  }

  // ---------------------------------------------------------------- the services and the links

  lemma {:induction false} WithoutAddrs(es: seq<Entry>, addr: nat)
    ensures Addrs(Without(es, addr)) == Keep(Addrs(es), {addr})
  {
    hide Addrs, Keep;
    if es == [] {
      NoAddrs(addr);
    } else {
      var init, last := es[..|es| - 1], es[|es| - 1];
      AddrsInit(es);
      WithoutAddrs(init, addr);
      DropJoin(Addrs(init), [last.addr], addr);
      KeepOne(last.addr, addr);
      AddrsSnoc(Without(init, addr), last);
    }
  }

  lemma NoAddrs(addr: nat)
    ensures Addrs([]) == [] && Keep([], {addr}) == []
  {
  }

  lemma KeepOne(x: nat, addr: nat)
    ensures Keep([x], {addr}) == if x == addr then [] else [x]
  {
  }

  lemma AddrsSnoc(es: seq<Entry>, e: Entry)
    ensures Addrs(es + [e]) == Addrs(es) + [e.addr]
  {
  }

  /** On the addresses alarm starts and stops are these acts. */
  lemma ServicesAct(s: State, addr: nat, nticks: u32)
    ensures Addrs(StartSpec(s, addr, nticks).alarms) == Do(Addrs(s.alarms), Begin(addr))
    ensures Addrs(StopSpec(s, addr).alarms) == Do(Addrs(s.alarms), End(addr))
  {
    hide Addrs;
    AddrsPrepend(NewEntry(addr, nticks, s.nticks), s.alarms);
    WithoutAddrs(s.alarms, addr);
  }

  function NodeAddrs(nodes: seq<AltAlarm.Alarm>): (r: seq<nat>)
    ensures |r| == |nodes| && forall i :: 0 <= i < |nodes| ==> r[i] == nodes[i].addr
  {
    seq(|nodes|, i requires 0 <= i < |nodes| => nodes[i].addr)
  }

  lemma {:induction false} NextAt(list: seq<nat>, k: nat)
    requires Distinct(list) && k < |list|
    ensures Next(list, list[k]) == if k == |list| - 1 then HEAD else list[k + 1]
  {
    NextInList(list[..k], list[k..]);
    assert list[..k] + list[k..] == list;
  }

  /** In a linked list, the next field of every node leads where this function says; so it does in a node that was
      taken out. */
  lemma NextIsLink(head: AltAlarm.Alarm, nodes: seq<AltAlarm.Alarm>, p: AltAlarm.Alarm)
    requires AltAlarm.Linked(head, nodes) && head.addr == HEAD && Distinct(NodeAddrs(nodes))
    requires p in nodes || (p.addr !in NodeAddrs(nodes) && p.next == p)
    ensures p.next.addr == Next(NodeAddrs(nodes), p.addr)
  {
    var list := NodeAddrs(nodes);
    if p in nodes {
      var k :| 0 <= k < |nodes| && nodes[k] == p;
      NextAt(list, k);
    } else {
      NextUnlisted(list, p.addr);
    }
  }

  // ---------------------------------------------------------------- whole ticks

  /** What the callback of an alarm does, the stop of its own alarm on the answer 0 included; nothing if it is not
      due. */
  function Acts(behave: map<nat, seq<Act>>, a: nat): seq<Act> {
    if a in behave then behave[a] else []
  }

  /** The walk of alt_tick from "p": it reads the next node, lets the callback act on the list and goes on from the
      node it has read. It meets exactly "s" and then the head. */
  ghost predicate TickVisits(list: seq<nat>, p: nat, behave: map<nat, seq<Act>>, s: seq<nat>)
    decreases s
  {
    if s == [] then p == HEAD
    else p != HEAD && s[0] == p && TickVisits(DoAll(list, Acts(behave, p)), Next(list, p), behave, s[1..])
  }

  lemma LeftShorter(behind: seq<nat>, acts: seq<Act>)
    ensures |Left(behind, acts)| <= |behind|
  {
    if acts != [] {
      LeftShorter(behind, acts[..|acts| - 1]);
      if acts[|acts| - 1].End? {
        KeepShorter(Left(behind, acts[..|acts| - 1]), {acts[|acts| - 1].addr});
      }
    }
  }

  lemma KeepShorter(s: seq<nat>, gone: set<nat>)
    ensures |Keep(s, gone)| <= |s|
  {
  }

  /** The alarms to visit: the first, then those behind it that its callback leaves, and so on. */
  function Expected(behind: seq<nat>, behave: map<nat, seq<Act>>): seq<nat>
    decreases |behind|
  {
    if behind == [] then []
    else
      LeftShorter(behind[1..], Acts(behave, behind[0]));
      [behind[0]] + Expected(Left(behind[1..], Acts(behave, behind[0])), behave)
  }

  /** No callback of the tick starts a listed alarm. */
  ghost predicate LegalTick(list: seq<nat>, behind: seq<nat>, behave: map<nat, seq<Act>>)
    decreases |behind|
  {
    behind != [] ==>
      var acts := Acts(behave, behind[0]);
      LeftShorter(behind[1..], acts);
      Legal(list, acts) && LegalTick(DoAll(list, acts), Left(behind[1..], acts), behave)
  }

  /** No callback of the tick stops the alarm right behind its own. */
  ghost predicate SparesNext(behind: seq<nat>, behave: map<nat, seq<Act>>)
    decreases |behind|
  {
    behind != [] ==>
      var rest, acts := behind[1..], Acts(behave, behind[0]);
      LeftShorter(rest, acts);
      (rest == [] || !Stopped(acts, rest[0])) && SparesNext(Left(rest, acts), behave)
  }

  function First(behind: seq<nat>): nat {
    if behind == [] then HEAD else behind[0]
  }

  /** A whole tick in which callbacks start unlisted alarms and stop any alarms: the walk visits exactly the alarms
      expected and ends, if and only if no callback stops the alarm right behind its own. */
  lemma {:induction false} TickSafeIff(front: seq<nat>, behind: seq<nat>, behave: map<nat, seq<Act>>)
    requires Distinct(front + behind) && HEAD !in front + behind && LegalTick(front + behind, behind, behave)
    ensures TickVisits(front + behind, First(behind), behave, Expected(behind, behave)) <==> SparesNext(behind, behave)
    decreases |behind|
  {
    hide DoAll, Legal, Left, Next, Stopped;
    if behind != [] {
      var b, rest := behind[0], behind[1..];
      var acts := Acts(behave, b);
      NextInList(front, behind);
      LeftShorter(rest, acts);
      var list := front + behind;
      assert list == (front + [b]) + rest;
      var front' := ListSplits(front + [b], rest, acts);
      var left := Left(rest, acts);
      TickSafeIff(front', left, behave);
      var s := Expected(behind, behave);
      assert s[1..] == Expected(left, behave);
      if rest == [] {
        LeftNothing(acts);
      } else {
        LeftFacts(rest, acts);
        if Stopped(acts, rest[0]) {
          StrandedTick(DoAll(list, acts), rest[0], behave, left);
        }
      }
    }
  }

  lemma StrandedTick(list: seq<nat>, p: nat, behave: map<nat, seq<Act>>, left: seq<nat>)
    requires p != HEAD && p !in left
    ensures !TickVisits(list, p, behave, Expected(left, behave))
  {
    hide Left;
    if left != [] {
      assert Expected(left, behave)[0] == left[0];
    }
  }

  lemma {:induction false} LeftMeans(rest: seq<nat>, acts: seq<Act>)
    requires Distinct(rest)
    ensures Distinct(Left(rest, acts))
    ensures Left(rest, acts) == Keep(rest, set a | a in rest && Stopped(acts, a))
  {
    var gone := set a | a in rest && Stopped(acts, a);
    hide Distinct;
    if acts == [] {
      KeepAll(rest);
      assert gone == {};
    } else {
      var init, act := acts[..|acts| - 1], acts[|acts| - 1];
      assert acts == init + [act];
      LeftMeans(rest, init);
      var before := set a | a in rest && Stopped(init, a);
      match act {
        case Begin(_) =>
          assert gone == before;
        case End(a) =>
          KeepMembers(Left(rest, init), {a});
          KeepTwice(rest, before, {a});
          KeepCong(rest, gone, before + {a});
      }
    }
  }

  lemma {:induction false} KeepAll(s: seq<nat>)
    ensures Keep(s, {}) == s
  {
    if s != [] {
      KeepAll(s[1..]);
    }
  }

  /** Which alarms these are: those present at the start of the tick, each once and in list order, without some
      that a callback of a visited alarm has stopped. */
  lemma {:induction false} ExpectedMeans(behind: seq<nat>, behave: map<nat, seq<Act>>)
    requires Distinct(behind)
    ensures var s := Expected(behind, behave);
            && Distinct(s)
            && s == Keep(behind, set a | a in behind && a !in s)
            && forall a :: a in behind && a !in s ==> exists v :: v in s && Stopped(Acts(behave, v), a)
    decreases |behind|
  {
    if behind != [] {
      var b, rest := behind[0], behind[1..];
      var acts := Acts(behave, b);
      TailDistinct(behind);
      hide Distinct, Left, Stopped;
      LeftMeans(rest, acts);
      LeftShorter(rest, acts);
      var left := Left(rest, acts);
      ExpectedMeans(left, behave);
      FirstMeans(behind, behave, Expected(left, behave));
    }
  }

  /** The first alarm and the alarms expected after it. */
  lemma FirstMeans(behind: seq<nat>, behave: map<nat, seq<Act>>, s: seq<nat>)
    requires behind != [] && behind[0] !in behind[1..]
    requires var left := Left(behind[1..], Acts(behave, behind[0]));
             && left == Keep(behind[1..], set a | a in behind[1..] && Stopped(Acts(behave, behind[0]), a))
             && Distinct(s)
             && s == Keep(left, set a | a in left && a !in s)
             && forall a :: a in left && a !in s ==> exists v :: v in s && Stopped(Acts(behave, v), a)
    ensures var t := [behind[0]] + s;
            && Distinct(t)
            && t == Keep(behind, set a | a in behind && a !in t)
            && forall a :: a in behind && a !in t ==> exists v :: v in t && Stopped(Acts(behave, v), a)
  {
    hide Stopped, Acts, Left, Keep, Distinct;
    var b, rest := behind[0], behind[1..];
    var left, t := Left(rest, Acts(behave, b)), [b] + s;
    var stopped := set a | a in rest && Stopped(Acts(behave, b), a);
    var missed := set a | a in left && a !in s;
    assert behind == [b] + rest;
    KeepMembers(rest, stopped);
    KeepMembers(left, missed);
    PrependDistinct(b, s);
    KeptInOrder(b, rest, stopped, missed, s);
    assert (set a | a in behind && a !in t) == set a | a in [b] + rest && a !in t;
    forall a | a in behind && a !in t
      ensures exists v :: v in t && Stopped(Acts(behave, v), a)
    {
      if a in left {
        var v :| v in s && Stopped(Acts(behave, v), a);
        assert v in t;
      } else {
        assert b in t;
      }
    }
  }

  lemma KeptInOrder(b: nat, rest: seq<nat>, stopped: set<nat>, missed: set<nat>, s: seq<nat>)
    requires b !in rest && s == Keep(Keep(rest, stopped), missed)
    ensures [b] + s == Keep([b] + rest, set a | a in [b] + rest && a !in [b] + s)
  {
    hide Keep;
    KeepTwice(rest, stopped, missed);
    KeepMembers(rest, stopped + missed);
    var gone := set a | a in [b] + rest && a !in [b] + s;
    KeepCong(rest, gone, stopped + missed);
    KeepFirst(b, rest, gone);
  }

  lemma KeepFirst(b: nat, rest: seq<nat>, gone: set<nat>)
    requires b !in gone
    ensures Keep([b] + rest, gone) == [b] + Keep(rest, gone)
  {
    assert ([b] + rest)[1..] == rest;
  }
}
