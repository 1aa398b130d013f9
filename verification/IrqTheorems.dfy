/** What a drain guarantees, whatever arrives while it runs. */
module IrqTheorems {
  import opened Words
  import opened Irq

  /** The sources that are up before pass "k" of a drain that has made the calls "ids": those up at the start and
      those that have gone up since, without the ones whose handler ran last. */
  function Up(raised: Sources, arrivals: seq<Sources>, ids: seq<nat>, k: nat): Sources
    requires k <= |ids|
  {
    if k == 0 then raised else Up(raised, arrivals, ids, k - 1) - {ids[k - 1]} + Arriving(arrivals, k - 1)
  }

  /** Every call is for the least source pending at its pass, and after the last one none is pending. */
  ghost predicate Served(raised: Sources, enabled: Sources, arrivals: seq<Sources>, ids: seq<nat>) {
    && (forall k :: 0 <= k < |ids| ==> LeastOf(Up(raised, arrivals, ids, k) * enabled, ids[k]))
    && Up(raised, arrivals, ids, |ids|) * enabled == {}
  }

  lemma {:induction false} UpLater(raised: Sources, arrivals: seq<Sources>, ids: seq<nat>, k: nat)
    requires ids != [] && k < |ids|
    ensures Up(raised, arrivals, ids, k + 1)
         == Up(raised - {ids[0]} + Arriving(arrivals, 0), Tail(arrivals), ids[1..], k)
  {
    if k > 0 {
      UpLater(raised, arrivals, ids, k - 1);
      assert Arriving(arrivals, k) == Arriving(Tail(arrivals), k - 1);
    } else {
      assert Up(raised, arrivals, ids, 0) == raised;
    }
  }

  /** The k-th call is for the least source pending at its pass. */
  ghost predicate LeastAt(raised: Sources, enabled: Sources, arrivals: seq<Sources>, ids: seq<nat>, k: nat)
    requires k < |ids|
  {
    LeastOf(Up(raised, arrivals, ids, k) * enabled, ids[k])
  }

  lemma ServedLater(raised: Sources, enabled: Sources, arrivals: seq<Sources>, ids: seq<nat>)
    requires ids != []
    ensures Served(raised, enabled, arrivals, ids)
        <==> LeastOf(raised * enabled, ids[0])
             && Served(raised - {ids[0]} + Arriving(arrivals, 0), enabled, Tail(arrivals), ids[1..])
  {
    hide LeastOf, Arriving, Tail, Up;
    var raised', rest := raised - {ids[0]} + Arriving(arrivals, 0), ids[1..];
    UpLater(raised, arrivals, ids, |ids| - 1);
    UpAtFirst(raised, arrivals, ids);
    forall k | 0 <= k < |rest|
      ensures LeastAt(raised, enabled, arrivals, ids, k + 1) <==> LeastAt(raised', enabled, Tail(arrivals), rest, k)
    {
      UpLater(raised, arrivals, ids, k);
    }
    if Served(raised, enabled, arrivals, ids) {
      forall k | 0 <= k < |rest|
        ensures LeastOf(Up(raised', Tail(arrivals), rest, k) * enabled, rest[k])
      {
        assert LeastAt(raised, enabled, arrivals, ids, k + 1);
        assert LeastAt(raised', enabled, Tail(arrivals), rest, k);
      }
    }
    if LeastOf(raised * enabled, ids[0]) && Served(raised', enabled, Tail(arrivals), rest) {
      forall k | 0 <= k < |ids|
        ensures LeastOf(Up(raised, arrivals, ids, k) * enabled, ids[k])
      {
        if k > 0 {
          assert LeastAt(raised', enabled, Tail(arrivals), rest, k - 1);
          assert LeastAt(raised, enabled, arrivals, ids, (k - 1) + 1);
        }
      }
    }
  }

  lemma UpAtFirst(raised: Sources, arrivals: seq<Sources>, ids: seq<nat>)
    ensures Up(raised, arrivals, ids, 0) == raised
  {
  }

  /** The calls of a drain are the only ones, whatever arrives, that serve the least pending source at every pass
      and leave none pending. */
  lemma {:induction false} DrainIff(raised: Sources, enabled: Sources, arrivals: seq<Sources>, ids: seq<nat>)
    ensures ids == Drain(raised, enabled, arrivals) <==> Served(raised, enabled, arrivals, ids)
    decreases ids
  {
    hide Drain, Served, Least;
    if ids == [] {
      DrainNothing(raised, enabled, arrivals);
    } else {
      ServedLater(raised, enabled, arrivals, ids);
      if LeastOf(raised * enabled, ids[0]) {
        DrainStep(raised, enabled, arrivals, ids[0]);
        DrainIff(raised - {ids[0]} + Arriving(arrivals, 0), enabled, Tail(arrivals), ids[1..]);
        assert ids == [ids[0]] + ids[1..];
      } else if raised * enabled == {} {
        DrainDone(raised, enabled, arrivals);
      } else {
        DrainStep(raised, enabled, arrivals, Least(raised * enabled));
      }
    }
  }

  lemma DrainNothing(raised: Sources, enabled: Sources, arrivals: seq<Sources>)
    ensures Drain(raised, enabled, arrivals) == [] <==> raised * enabled == {}
    ensures Served(raised, enabled, arrivals, []) <==> raised * enabled == {}
  {
  }

  /** With no new arrivals a drain calls exactly the pending sources, each once, in ascending order. */
  lemma {:induction false} QuietDrain(raised: Sources, enabled: Sources)
    ensures var ids := Drain(raised, enabled, []);
            && Elements(ids) == raised * enabled
            && forall i, j :: 0 <= i < j < |ids| ==> ids[i] < ids[j]
    decreases |raised * enabled|
  {
    hide Drain, Least, Elements;
    var pending := raised * enabled;
    if pending == {} {
      DrainDone(raised, enabled, []);
      NoElements();
    } else {
      var id := Least(pending);
      DrainStep(raised, enabled, [], id);
      assert raised - {id} + {} == raised - {id} && (raised - {id}) * enabled == pending - {id};
      QuietDrain(raised - {id}, enabled);
      Prepend(id, Drain(raised - {id}, enabled, []), pending - {id});
    }
  }

  lemma NoElements()
    ensures Elements<nat>([]) == {}
  {
  }

  lemma Prepend(id: nat, rest: seq<nat>, s: set<nat>)
    requires Elements(rest) == s && forall j :: j in s ==> id < j
    requires forall i, j :: 0 <= i < j < |rest| ==> rest[i] < rest[j]
    ensures Elements([id] + rest) == {id} + s
    ensures forall i, j :: 0 <= i < j < |[id] + rest| ==> ([id] + rest)[i] < ([id] + rest)[j]
  {
    assert forall i :: 0 <= i < |rest| ==> rest[i] in Elements(rest);
  }

  /** While a source waits, only sources of higher priority are called, that is, lower ones by number. */
  lemma {:induction false} Priority(raised: Sources, enabled: Sources, arrivals: seq<Sources>, id: nat, k: nat)
    requires id in raised * enabled
    requires var ids := Drain(raised, enabled, arrivals); k < |ids| && id !in ids[..k]
    ensures Drain(raised, enabled, arrivals)[k] <= id
    decreases k
  {
    var first := Least(raised * enabled);
    DrainStep(raised, enabled, arrivals, first);
    if k > 0 {
      var rest := Drain(raised - {first} + Arriving(arrivals, 0), enabled, Tail(arrivals));
      assert ([first] + rest)[..k] == [first] + rest[..k - 1];
      Priority(raised - {first} + Arriving(arrivals, 0), enabled, Tail(arrivals), id, k - 1);
    }
  }

  /** Every enabled source that was up at the start is called. */
  lemma {:induction false} RaisedIsCalled(raised: Sources, enabled: Sources, arrivals: seq<Sources>, id: nat)
    requires id in raised * enabled
    ensures id in Drain(raised, enabled, arrivals)
    decreases |arrivals|, |raised * enabled|
  {
    var first := Least(raised * enabled);
    DrainStep(raised, enabled, arrivals, first);
    if id != first {
      RaisedIsCalled(raised - {first} + Arriving(arrivals, 0), enabled, Tail(arrivals), id);
    }
  }

  /** Every enabled source that goes up during pass "k" is called in a later one. */
  lemma {:induction false} ArrivalIsCalled(raised: Sources, enabled: Sources, arrivals: seq<Sources>, k: nat, id: nat)
    requires k < |Drain(raised, enabled, arrivals)| && k < |arrivals| && id in arrivals[k] * enabled
    ensures id in Drain(raised, enabled, arrivals)[k + 1..]
    decreases k
  {
    var first := Least(raised * enabled);
    DrainStep(raised, enabled, arrivals, first);
    var raised' := raised - {first} + Arriving(arrivals, 0);
    if k == 0 {
      RaisedIsCalled(raised', enabled, Tail(arrivals), id);
      assert ([first] + Drain(raised', enabled, Tail(arrivals)))[1..] == Drain(raised', enabled, Tail(arrivals));
    } else {
      ArrivalIsCalled(raised', enabled, Tail(arrivals), k - 1, id);
      var rest := Drain(raised', enabled, Tail(arrivals));
      assert ([first] + rest)[k + 1..] == rest[k..];
    }
  }

  function Total(arrivals: seq<Sources>): nat {
    if arrivals == [] then 0 else |arrivals[0]| + Total(arrivals[1..])
  }

  /** A drain ends: it makes no more calls than sources were up or went up. */
  lemma {:induction false} DrainBounded(raised: Sources, enabled: Sources, arrivals: seq<Sources>)
    ensures |Drain(raised, enabled, arrivals)| <= |raised * enabled| + Total(arrivals)
    decreases |arrivals|, |raised * enabled|
  {
    if raised * enabled != {} {
      var id := Least(raised * enabled);
      DrainStep(raised, enabled, arrivals, id);
      var new' := Arriving(arrivals, 0);
      var next := (raised - {id} + new') * enabled;
      DrainBounded(raised - {id} + new', enabled, Tail(arrivals));
      assert next <= (raised * enabled - {id}) + new';
      SubsetSmaller(next, (raised * enabled - {id}) + new');
    }
  }

  lemma {:induction false} SubsetSmaller(a: set<nat>, b: set<nat>)
    requires a <= b
    ensures |a| <= |b|
  {
    assert b == a + (b - a);
  }
}
