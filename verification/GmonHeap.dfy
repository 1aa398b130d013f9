/** The bump allocator keeps its blocks apart: exactly when, for one request and for whole runs. */
module GmonHeap {
  import opened Words
  import opened GmonSpec

  lemma AlignUpFacts(a: nat, b: nat)
    requires a <= AlignUp(b)
    ensures a <= AlignUp(a) <= AlignUp(b) && AlignUp(a) % 4 == 0
  {
  }

  /** A granted request starts at the aligned old end; nothing in use reaches past it. */
  lemma GrowFacts(h: Heap, incr: int)
    requires HeapInv(h) && -0x8000_0000 <= incr < 0x8000_0000
    ensures var e := AlignUp(h.end);
            && h.end <= e <= AlignUp(h.limit) && e % 4 == 0
            && Grow(h.end, h.limit, incr) == if 0 <= e + incr <= h.limit then (e + incr, e) else (e, SBRK_FAILED)
  {
    AlignUpFacts(h.end, h.limit);
  }

  /** What sbrk grants: with the break moved up to the next multiple of 4, exactly the requests after which it lies
      between 0 and the limit. A growing one is given the bytes from that break on; a refusal is 0xFFFFFFFF and
      leaves the break aligned. */
  lemma SbrkGrants(h: Heap, incr: int) returns (e: nat)
    requires HeapInv(h) && -0x8000_0000 <= incr < 0x8000_0000
    ensures e % 4 == 0 && h.end <= e < h.end + 4
    ensures var p := Grow(h.end, h.limit, incr).1;
            if 0 <= e + incr <= h.limit then
              p == e && SbrkSpec(h, incr)
                == h.(end := e + incr, live := h.live + (if incr > 0 then [Block(e, incr)] else []))
            else
              p == 0xFFFF_FFFF && SbrkSpec(h, incr) == h.(end := e)
  {
    GrowFacts(h, incr);
    e := AlignUp(h.end);
  }

  lemma SbrkKeepsIff(h: Heap, incr: int)
    requires HeapInv(h) && Legal(Sbrk(incr))
    ensures HeapInv(SbrkSpec(h, incr)) <==> Harmless(h, Sbrk(incr))
  {
    GrowFacts(h, incr);
    AlignUpFacts(h.limit, h.limit);
    hide AlignUp;
    var t := SbrkSpec(h, incr);
    if incr >= 0 || !(0 <= AlignUp(h.end) + incr <= h.limit) {
      assert t.live == h.live || t.live == h.live + [Block(AlignUp(h.end), incr)];
      assert forall i :: 0 <= i < |h.live| ==> t.live[i] == h.live[i];
      assert HeapInv(t);
    } else {
      assert t.live == h.live;
      if !Harmless(h, Sbrk(incr)) {
        if i :| 0 <= i < |h.live| && h.live[i].at + h.live[i].size > t.end {
          assert !Inside(t, t.live[i]);
        }
      }
    }
  }

  lemma RefillKeeps(h: Heap, size: nat)
    requires HeapInv(h) && Served(h, size)
    ensures HeapInv(Refill(h, size)) && size <= Refill(h, size).slabSize && Refill(h, size).live == h.live
  {
    GrowFacts(h, SLAB);
    AlignUpFacts(h.limit, h.limit);
    hide AlignUp;
  }

  /** A request the slab can serve is cut from its front. */
  lemma AllocCuts(h: Heap, size: nat)
    requires HeapInv(h) && 0 < size <= h.slabSize
    ensures AllocSpec(h, size) == h.(slabPtr := h.slabPtr + size, slabSize := h.slabSize - size,
                                     live := h.live + [Block(h.slabPtr, size)])
  {
    hide AlignUp;
  }

  lemma CutKeeps(h: Heap, size: nat)
    requires HeapInv(h) && 0 < size <= h.slabSize && size % 4 == 0
    ensures AllocSpec(h, size).end == h.end && AllocSpec(h, size).live == h.live + [Block(h.slabPtr, size)]
    ensures HeapInv(AllocSpec(h, size))
  {
    hide AlignUp, AllocSpec, Refill;
    AllocCuts(h, size);
    var t := AllocSpec(h, size);
    assert forall i :: 0 <= i < |t.live| ==> t.live[i] == if i < |h.live| then h.live[i] else Block(h.slabPtr, size);
  }

  /** A refused request leaves a block that starts at the refusal code, or one longer than its slab. */
  lemma UnservedBreaks(h: Heap, size: nat)
    requires HeapInv(h) && Legal(Alloc(size)) && !Served(h, size)
    ensures !HeapInv(AllocSpec(h, size))
    ensures size <= SLAB ==> Refill(h, size).slabPtr == SBRK_FAILED
  {
    GrowFacts(h, SLAB);
    hide AlignUp;
    var t := AllocSpec(h, size);
    assert t.live[|h.live|] == Block(Refill(h, size).slabPtr, size);
    assert !Inside(t, t.live[|h.live|]);
  }

  /** The address an entry is allocated at is a 32-bit word, the refusal code included. */
  lemma RefillWord(h: Heap)
    requires HeapInv(h)
    ensures 0 <= h.slabSize && 0 <= AllocSpec(h, ENTRY).slabSize
    ensures AllocSpec(h, ENTRY).live == h.live + [Block(Refill(h, ENTRY).slabPtr, ENTRY)]
    ensures Refill(h, ENTRY).slabPtr < W32 && (!Served(h, ENTRY) ==> Refill(h, ENTRY).slabPtr == SBRK_FAILED)
  {
    if Served(h, ENTRY) {
      RefillKeeps(h, ENTRY);
    } else {
      UnservedBreaks(h, ENTRY);
    }
  }

  /** Nothing that comes later makes up for a block at the refusal code. */
  lemma RefusalStays(h: Heap, size: nat)
    requires h.live != [] && h.live[|h.live| - 1].at == SBRK_FAILED
    ensures !HeapInv(h) && !HeapInv(AllocSpec(h, size))
  {
    hide AlignUp;
    var n := |h.live| - 1;
    var t := AllocSpec(h, size);
    assert t.live[n] == h.live[n] && !Inside(t, t.live[n]) && !Inside(h, h.live[n]);
  }

  /** The heap before anything was asked of it. */
  function Reset(start: nat, limit: nat): Heap {
    Heap(start, limit, start, 0, 0, [])
  }

  /** On a heap smaller than one slab the very first entry is not served: it comes to lie at the refusal code,
      outside the heap. */
  lemma FirstEntryRefused(start: nat, limit: nat)
    requires 0 < start <= limit <= 0x7FFF_FFFC && AlignUp(start) + SLAB > limit
    ensures var h := Reset(start, limit);
            && HeapInv(h) && !Served(h, ENTRY)
            && AllocSpec(h, ENTRY).live == [Block(SBRK_FAILED, ENTRY)] && !HeapInv(AllocSpec(h, ENTRY))
  {
    var h := Reset(start, limit);
    AlignUpFacts(start, limit);
    assert HeapInv(h);
    UnservedBreaks(h, ENTRY);
  }

  lemma AllocKeepsIff(h: Heap, size: nat)
    requires HeapInv(h) && Legal(Alloc(size))
    ensures HeapInv(AllocSpec(h, size)) <==> Served(h, size)
  {
    hide HeapInv;
    if Served(h, size) {
      RefillKeeps(h, size);
      CutKeeps(Refill(h, size), size);
      assert size <= Refill(h, size).slabSize;
      assert AllocSpec(h, size) == AllocSpec(Refill(h, size), size) by {
        RefillIdle(Refill(h, size), size);
      }
    } else {
      UnservedBreaks(h, size);
    }
  }

  lemma RefillIdle(h: Heap, size: nat)
    requires HeapInv(h) && size <= h.slabSize
    ensures Refill(h, size) == h
  {
  }

  /** One request keeps every block aligned, inside the heap and apart from all others if and only if it is
      harmless: an allocation is served, a shrinking sbrk stays above what is in use. */
  lemma StepKeepsIff(h: Heap, op: Op)
    requires HeapInv(h) && Legal(op)
    ensures HeapInv(Step(h, op)) <==> Harmless(h, op)
  {
    hide HeapInv, AllocSpec, SbrkSpec;
    match op
    case Sbrk(incr) => SbrkKeepsIff(h, incr);
    case Alloc(size) => AllocKeepsIff(h, size);
  }

  /** The invariant holds throughout a run. */
  ghost predicate SafeRun(h: Heap, ops: seq<Op>)
    decreases ops
  {
    HeapInv(h) && (ops == [] || SafeRun(Step(h, ops[0]), ops[1..]))
  }

  ghost predicate HarmlessRun(h: Heap, ops: seq<Op>)
    decreases ops
  {
    ops == [] || (Harmless(h, ops[0]) && HarmlessRun(Step(h, ops[0]), ops[1..]))
  }

  lemma {:induction false} RunIsSafeIff(h: Heap, ops: seq<Op>)
    requires HeapInv(h) && forall op :: op in ops ==> Legal(op)
    ensures SafeRun(h, ops) <==> HarmlessRun(h, ops)
    decreases ops
  {
    hide HeapInv, Step, Harmless, Legal;
    if ops != [] {
      StepKeepsIff(h, ops[0]);
      if Harmless(h, ops[0]) {
        assert forall op :: op in ops[1..] ==> op in ops;
        RunIsSafeIff(Step(h, ops[0]), ops[1..]);
      }
    }
  }
}
