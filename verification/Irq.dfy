/** Interrupt registration and the drain loop of the interrupt handler. */
module Irq {
  import opened Words
  import opened Digits
  import opened Bits

  const ALT_NIRQ := 32
  const EINVAL := 22
  const NULL := 0

  /** One handler call. */
  datatype Isr = Isr(id: nat, handler: nat, context: nat)

  // ---------------------------------------------------------------- sources and the pending word

  type Sources = s: set<nat> | forall id :: id in s ==> id < ALT_NIRQ

  predicate LeastOf(s: Sources, id: nat) {
    id in s && forall j :: 0 <= j < id ==> j !in s
  }

  /** The sources that arrive while the handler of pass "k" runs; none once the list is exhausted. */
  function Arriving(arrivals: seq<Sources>, k: nat): Sources {
    if k < |arrivals| then arrivals[k] else {}
  }

  /** The least pending source. */
  function Least(s: Sources): (id: nat)
    requires s != {}
    ensures LeastOf(s, id) && id < ALT_NIRQ
  {
    LeastExists(s, 0);
    LeastUnique(s);
    var id :| LeastOf(s, id);
    id
  }

  lemma IsLeast(s: Sources, id: nat)
    requires id in s && forall j :: 0 <= j < id ==> j !in s
    ensures LeastOf(s, id)
  {
  }

  lemma LeastUnique(s: Sources)
    ensures forall i, j :: LeastOf(s, i) && LeastOf(s, j) ==> i == j
  {
  }

  lemma LeastExists(s: Sources, from: nat)
    requires s != {} && from <= ALT_NIRQ && forall j :: 0 <= j < from ==> j !in s
    ensures exists id :: LeastOf(s, id)
    decreases ALT_NIRQ - from
  {
    if from in s {
      assert LeastOf(s, from);
    } else {
      var some :| some in s;
      assert from < ALT_NIRQ;
      LeastExists(s, from + 1);
    }
  }

  /** The word whose bit "i" is set for each source "from + i", of "n" bits. */
  function WordOf(s: Sources, from: nat, n: nat): nat
    decreases n
  {
    if n == 0 then 0 else (if from in s then 1 else 0) + 2 * WordOf(s, from + 1, n - 1)
  }

  lemma {:induction false} WordFits(s: Sources, from: nat, n: nat)
    ensures WordOf(s, from, n) < Pow(2, n)
    decreases n
  {
    if n > 0 {
      WordFits(s, from + 1, n - 1);
      PowStep(2, n);
    }
  }

  /** Masking the word with a single bit tests for the source. */
  lemma {:induction false} WordBit(s: Sources, from: nat, n: nat, i: nat)
    requires i < n
    ensures And(WordOf(s, from, n), Pow(2, i)) == if from + i in s then Pow(2, i) else 0
    decreases i
  {
    var x := WordOf(s, from, n);
    var rest := WordOf(s, from + 1, n - 1);
    assert x % 2 == (if from in s then 1 else 0) && x / 2 == rest;
    if i == 0 {
      assert Pow(2, 0) == 1;
      AndOdd(x, 0);
      AndZero(rest);
    } else {
      PowStep(2, i);
      AndDouble(x, Pow(2, i - 1));
      WordBit(s, from + 1, n - 1, i - 1);
    }
  }

  lemma {:induction false} WordEmpty(s: Sources, from: nat, n: nat)
    ensures WordOf(s, from, n) == 0 <==> forall id :: from <= id < from + n ==> id !in s
    decreases n
  {
    if n > 0 {
      WordEmpty(s, from + 1, n - 1);
    }
  }

  // ---------------------------------------------------------------- what a drain does

  /** The ids a drain calls: always the least that is pending, which its handler clears, until none is. */
  function Drain(raised: Sources, enabled: Sources, arrivals: seq<Sources>): seq<nat>
    decreases |arrivals|, |raised * enabled|
  {
    if raised * enabled == {} then []
    else
      var id := Least(raised * enabled);
      DrainEnds(raised, enabled, id);
      [id] + Drain(raised - {id} + Arriving(arrivals, 0), enabled, Tail(arrivals))
  }

  function Tail(arrivals: seq<Sources>): seq<Sources> {
    if arrivals == [] then [] else arrivals[1..]
  }

  lemma DrainEnds(raised: Sources, enabled: Sources, id: nat)
    requires id in raised * enabled
    ensures |(raised - {id} + {}) * enabled| < |raised * enabled|
  {
    assert (raised - {id} + {}) * enabled == raised * enabled - {id};
  }

  class Controller {
    var handler: array<nat>     // alt_irq[].handler
    var context: array<nat>     // alt_irq[].context
    var enabled: Sources        // alt_irq_active
    var raised: Sources         // the interrupt lines that are up
    ghost var trace: seq<Isr>   // every handler call

    ghost predicate Valid()
      reads this, handler, context
    {
      && handler.Length == context.Length == ALT_NIRQ
      && handler != context
      && forall id :: 0 <= id < ALT_NIRQ ==> (id in enabled <==> handler[id] != NULL)
    }

    constructor ()
      ensures Valid() && enabled == {} && trace == [] && fresh(handler) && fresh(context)
    {
      handler := new nat[ALT_NIRQ](_ => NULL);
      context := new nat[ALT_NIRQ](_ => NULL);
      enabled, raised, trace := {}, {}, [];
    }

    /** alt_irq_register: a source is enabled if and only if its handler is not NULL. */
    method Register(id: u32, ctx: nat, isr: nat) returns (rc: int)
      requires Valid()
      modifies this`enabled, handler, context
      ensures Valid()
      ensures rc == if id < ALT_NIRQ then 0 else -EINVAL
      ensures id < ALT_NIRQ ==> handler[id] == isr && context[id] == ctx
      ensures enabled == if id >= ALT_NIRQ then old(enabled)
                         else if isr != NULL then old(enabled) + {id} else old(enabled) - {id}
      ensures forall j :: 0 <= j < ALT_NIRQ && j != id ==>
                handler[j] == old(handler[j]) && context[j] == old(context[j])
    {
      rc := -EINVAL;
      if id < ALT_NIRQ {
        handler[id] := isr;
        context[id] := ctx;
        enabled := if isr != NULL then enabled + {id} else enabled - {id};
        rc := 0;
      }
    }

    /** alt_irq_pending: the word of the raised sources that are enabled. */
    function Pending(): (w: nat)
      reads this
    {
      WordOf(raised * enabled, 0, ALT_NIRQ)
    }

    /** One pass: from the low end up, find the first set bit and call its handler, which clears its source. */
    method Pass(active: u32, arriving: Sources) returns (ghost id: nat)
      requires Valid() && raised * enabled != {} && active == Pending()
      modifies this`raised, this`trace
      ensures LeastOf(old(raised * enabled), id) && id < ALT_NIRQ
      ensures handler[id] != NULL && trace == old(trace) + [Isr(id, handler[id], context[id])]
      ensures raised == old(raised) - {id} + arriving
    {
      hide LeastOf, And, WordOf, Pow;
      var i: nat, mask: u32 := 0, 1;
      ghost var set0: Sources := raised * enabled;
      ghost var some :| some in set0;
      PowNothing();
      while true
        invariant i < ALT_NIRQ && mask == Pow(2, i)
        invariant raised == old(raised) && trace == old(trace)
        invariant i <= some && forall j :: 0 <= j < i ==> j !in set0
        decreases ALT_NIRQ - i
      {
        WordBit(set0, 0, ALT_NIRQ, i);
        if And(active, mask) != 0 {
          IsLeast(set0, i);
          trace := trace + [Isr(i, handler[i], context[i])];
          raised := raised - {i} + arriving;
          return i;
        }
        ShiftMask(i);
        mask := Shl(mask, 1);
        i := i + 1;
      }
    }

    /** alt_irq_handler, entered because an interrupt is pending; "arrivals" are the sources that go up during
        each pass. */
    method Handle(arrivals: seq<Sources>) returns (ghost ids: seq<nat>)
      requires Valid() && raised * enabled != {}
      modifies this`raised, this`trace
      ensures ids == Drain(old(raised), enabled, arrivals)
      ensures raised * enabled == {}
      ensures |trace| == |old(trace)| + |ids| && old(trace) <= trace
      ensures forall k :: 0 <= k < |ids| ==>
                && ids[k] < ALT_NIRQ
                && handler[ids[k]] != NULL
                && trace[|old(trace)| + k] == Isr(ids[k], handler[ids[k]], context[ids[k]])
    {
      hide WordOf, LeastOf, Drain, Least, Arriving, Pow;
      ids := [];
      var rest := arrivals;
      WordFits(raised * enabled, 0, ALT_NIRQ);
      WordLimit();
      var active: u32 := Pending();
      var more := true;
      while more
        invariant Valid() && more == (raised * enabled != {}) && (more ==> active == Pending())
        invariant Drain(old(raised), enabled, arrivals) == ids + Drain(raised, enabled, rest)
        invariant |trace| == |old(trace)| + |ids| && old(trace) <= trace
        invariant forall k :: 0 <= k < |ids| ==>
                    && ids[k] < ALT_NIRQ
                    && handler[ids[k]] != NULL
                    && trace[|old(trace)| + k] == Isr(ids[k], handler[ids[k]], context[ids[k]])
        decreases |rest|, |raised * enabled|, more
      {
        ghost var was := raised;
        var id := Pass(active, Arriving(rest, 0));
        DrainStep(was, enabled, rest, id);
        ids, rest := ids + [id], Tail(rest);
        WordFits(raised * enabled, 0, ALT_NIRQ);
        WordEmpty(raised * enabled, 0, ALT_NIRQ);
        active := Pending();
        more := active != 0;
      }
      DrainDone(raised, enabled, rest);
    }
  }

  lemma DrainDone(raised: Sources, enabled: Sources, arrivals: seq<Sources>)
    requires raised * enabled == {}
    ensures Drain(raised, enabled, arrivals) == []
  {
  }

  lemma WordLimit()
    ensures Pow(2, ALT_NIRQ) == W32
  {
    Pow16(8);
    Pow16Eight();
  }

  lemma ShiftMask(i: nat)
    requires i < ALT_NIRQ - 1
    ensures Pow(2, i + 1) < W32 && Shl(Pow(2, i), 1) == Pow(2, i + 1)
  {
    hide Pow;
    WordLimit();
    PowMono(2, i + 1, ALT_NIRQ - 1);
    PowStep(2, ALT_NIRQ);
    PowStep(2, i + 1);
    assert Pow(2, 1) == 2 by { PowOne(); }
  }

  lemma PowNothing()
    ensures Pow(2, 0) == 1
  {
  }

  lemma PowOne()
    ensures Pow(2, 1) == 2
  {
  }

  lemma DrainStep(raised: Sources, enabled: Sources, arrivals: seq<Sources>, id: nat)
    requires LeastOf(raised * enabled, id)
    ensures Drain(raised, enabled, arrivals)
         == [id] + Drain(raised - {id} + Arriving(arrivals, 0), enabled, Tail(arrivals))
    ensures arrivals == [] ==> |(raised - {id} + Arriving(arrivals, 0)) * enabled| < |raised * enabled|
  {
    LeastUnique(raised * enabled);
    DrainEnds(raised, enabled, id);
  }
}
