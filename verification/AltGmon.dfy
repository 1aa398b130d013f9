/** The profiler's call counter: mcount's search, the slow path that adds entries, and the allocator under it. */
module AltGmon {
  import opened Words
  import opened GmonSpec
  import opened GmonHeap
  import opened GmonLists

  /** mcount's first loop: along the next words until the function's entry, or 0. */
  method SearchFn(mem: map<nat, nat>, head: nat, self: u32, ghost fns: seq<Fn>) returns (entry: nat)
    requires FnList(mem, head, fns)
    ensures entry == if HasFn(fns, self) then FindFn(fns, self).at else 0
  {
    entry := head;
    ghost var rest := fns;
    while entry != 0 && mem[entry + 4] != self
      invariant FnList(mem, entry, rest)
      invariant HasFn(rest, self) == HasFn(fns, self)
      invariant HasFn(fns, self) ==> FindFn(rest, self) == FindFn(fns, self)
      decreases |rest|
    {
      entry := mem[entry];
      rest := rest[1..];
    }
  }

  /** mcount's second loop, which looks at the first arc without asking whether there is one. */
  method SearchArc(mem: map<nat, nat>, head: nat, from: u32, ghost arcs: seq<Arc>) returns (arc: nat)
    requires ArcList(mem, head, arcs) && arcs != []
    ensures arc == if HasArc(arcs, from) then FindArc(arcs, from).at else 0
  {
    arc := head;
    ghost var rest := arcs;
    while mem[arc + 4] != from
      invariant arc != 0 && ArcList(mem, arc, rest)
      invariant HasArc(rest, from) == HasArc(arcs, from)
      invariant HasArc(arcs, from) ==> FindArc(rest, from) == FindArc(arcs, from)
      decreases |rest|
    {
      arc := mem[arc];
      rest := rest[1..];
      if arc == 0 {
        break;
      }
    }
  }

  class Profiler {
    const heapStart: u32           // __alt_heap_start
    const heapLimit: u32           // __alt_heap_limit
    var heapEnd: nat
    var slabPtr: nat               // mcount_slab_ptr
    var slabSize: int              // mcount_slab_size
    var mem: map<nat, nat>         // the words of the heap that were written
    var fnHead: array<u32>         // __mcount_fn_head
    ghost var live: seq<Block>     // every block handed out
    ghost var graph: seq<seq<Fn>>  // the lists in memory
    ghost var calls: seq<Call>     // the calls so far

    ghost function HeapOf(): Heap
      reads this
    {
      Heap(heapStart, heapLimit, heapEnd, slabPtr, slabSize, live)
    }

    /** The allocator and the lists are sound, and the graph shows exactly the calls. */
    ghost predicate Valid()
      reads this, fnHead
    {
      Sound(HeapOf(), mem, fnHead[..], graph) && Faithful(graph, calls)
    }

    /** Linker addresses: bit 31 of an address bypasses the data cache, so memory lies below it. */
    constructor (start: u32, limit: u32)
      requires 0 < start <= limit <= 0x7FFF_FFFC
      ensures Valid() && calls == [] && live == [] && fresh(fnHead)
    {
      heapStart, heapLimit, heapEnd := start, limit, start;
      slabPtr, slabSize, mem := 0, 0, map[];
      fnHead := new u32[BUCKETS](_ => 0);
      live, graph, calls := [], seq(BUCKETS, _ => []), [];
    }

    /** The part of ALT_SBRK that every caller shares. */
    method MoveEnd(incr: int) returns (p: nat)
      modifies this`heapEnd
      ensures (heapEnd, p) == Grow(old(heapEnd), heapLimit, incr)
    {
      heapEnd := (heapEnd + 3) / 4 * 4;
      if (heapEnd + incr) % W32 > heapLimit {
        return SBRK_FAILED;
      }
      p := heapEnd;
      heapEnd := (heapEnd + incr) % W32;
    }

    /** ALT_SBRK, called by anyone else: everything stays sound if and only if the request is harmless. */
    method Sbrk(incr: int) returns (p: nat)
      requires Valid() && Legal(Op.Sbrk(incr))
      modifies this`heapEnd, this`live
      ensures HeapOf() == SbrkSpec(old(HeapOf()), incr)
      ensures Valid() <==> old(Harmless(HeapOf(), Op.Sbrk(incr)))
      ensures p == Grow(old(heapEnd), heapLimit, incr).1
    {
      ghost var h := HeapOf();
      StepKeepsIff(h, Op.Sbrk(incr));
      p := MoveEnd(incr);
      if p != SBRK_FAILED && incr > 0 {
        live := live + [Block(p, incr)];
      }
      OwnedGrows(mem, h.live, live);
      hide HeapInv, Rep, Faithful, Owned;
    }

    /** mcount_allocate. */
    method Allocate(size: nat) returns (data: nat)
      requires 0 < size < W32 && 0 <= slabSize
      modifies this`heapEnd, this`slabPtr, this`slabSize, this`live
      ensures HeapOf() == AllocSpec(old(HeapOf()), size) && data == Refill(old(HeapOf()), size).slabPtr
    {
      if size > slabSize % W32 {
        slabPtr := MoveEnd(SLAB);
        slabSize := SLAB;
      }
      data := slabPtr;
      slabPtr := (slabPtr + size) % W32;
      slabSize := slabSize - size;
      live := live + [Block(data, size)];
    }

    /** The first half of __mcount_record: an entry for a function that has none. */
    method NewFn(self: u32, b: nat) returns (entry: nat)
      requires Sound(HeapOf(), mem, fnHead[..], graph) && b < BUCKETS && !HasFn(graph[b], self)
      modifies this`heapEnd, this`slabPtr, this`slabSize, this`live, this`mem, this`graph, fnHead
      ensures HeapOf() == AllocSpec(old(HeapOf()), ENTRY) && slabSize >= 0
      ensures entry == Refill(old(HeapOf()), ENTRY).slabPtr && entry + 8 in mem
      ensures graph == old(graph)[b := Entered(old(graph[b]), self, entry)]
      ensures old(Served(HeapOf(), ENTRY)) ==> Sound(HeapOf(), mem, fnHead[..], graph)
    {
      ghost var h, heads := HeapOf(), fnHead[..];
      hide Sound, HeapInv, Owned, Rep, Served, AllocSpec, Refill, HasFn, FnList, FnWritten, Entered;
      NewFnSound(h, mem, heads, graph, b, self);
      entry := Allocate(ENTRY);
      StoreFn(entry, self, b);
      graph := graph[b := Entered(graph[b], self, entry)];
    }

    /** The stores that make a new function entry the first of its bucket. */
    method StoreFn(entry: u32, self: u32, b: nat)
      requires b < fnHead.Length
      modifies this`mem, fnHead
      ensures mem == FnWritten(old(mem), entry, self, old(fnHead[b])) && entry + 8 in mem
      ensures fnHead[..] == old(fnHead[..])[b := entry]
    {
      mem := mem[entry + 4 := self];
      mem := mem[entry + 8 := 0];
      mem := mem[entry := fnHead[b]];
      fnHead[b] := entry;
    }

    /** The stores that make a new arc the first of its function. */
    method StoreArc(arc: nat, entry: nat, from: u32)
      requires entry + 8 in mem
      modifies this`mem
      ensures entry + 8 !in WordsOf(arc) ==> mem == ArcWritten(old(mem), arc, from, entry)
    {
      mem := mem[arc + 4 := from];
      mem := mem[arc + 8 := 1];
      mem := mem[arc := mem[entry + 8]];
      mem := mem[entry + 8 := arc];
    }

    /** The second half: an arc at the head of the function's list. */
    method NewArc(entry: nat, from: u32, ghost self: u32, ghost b: nat)
      requires entry + 8 in mem && slabSize >= 0 && |graph| == BUCKETS && b < BUCKETS && HasFn(graph[b], self)
      modifies this`heapEnd, this`slabPtr, this`slabSize, this`live, this`mem, this`graph
      ensures HeapOf() == AllocSpec(old(HeapOf()), ENTRY)
      ensures var arc := Refill(old(HeapOf()), ENTRY).slabPtr;
              graph == old(graph)[b := WithArcs(old(graph[b]), self,
                                                [Arc(arc, from, 1)] + FindFn(old(graph[b]), self).arcs)]
      ensures old(&& Sound(HeapOf(), mem, fnHead[..], graph)
                  && entry == FindFn(graph[b], self).at && Served(HeapOf(), ENTRY))
              ==> Sound(HeapOf(), mem, fnHead[..], graph)
    {
      hide Sound, HeapInv, Owned, Rep, Served, AllocSpec, Refill, HasFn, FindFn, WithArcs, ArcWritten, FnList, ArcList;
      ghost var sound := Sound(HeapOf(), mem, fnHead[..], graph) && Served(HeapOf(), ENTRY);
      if sound {
        NewArcSound(HeapOf(), mem, fnHead[..], graph, b, Call(self, from));
      }
      var arc := Allocate(ENTRY);
      StoreArc(arc, entry, from);
      graph := graph[b := WithArcs(graph[b], self, [Arc(arc, from, 1)] + FindFn(graph[b], self).arcs)];
    }

    /** __mcount_record, called when the search found no arc; "entry" is the function's entry, or 0. Everything
        stays sound if and only if the memory for the new entries is there. */
    method Record(self: u32, from: u32, entry: nat, b: nat)
      requires Valid() && b == Bucket(self) && !Listed(graph[b], Call(self, from))
      requires entry == if HasFn(graph[b], self) then FindFn(graph[b], self).at else 0
      modifies this`heapEnd, this`slabPtr, this`slabSize, this`live, this`mem, this`graph, this`calls, fnHead
      ensures calls == old(calls) + [Call(self, from)] && |graph| == BUCKETS
      ensures (HeapOf(), graph[b]) == CountSpec(old(HeapOf()), old(graph[b]), Call(self, from))
      ensures forall c :: 0 <= c < BUCKETS && c != b ==> graph[c] == old(graph[c])
      ensures Valid() <==> old(Room(HeapOf(), graph[b], Call(self, from)))
    {
      ghost var call := Call(self, from);
      hide HeapInv, Owned, Rep, Served, AllocSpec, Refill, FindFn, WithArcs, FnList, Faithful, CountSpec, Counted,
           Listed, Room, HasFn, Entered;
      RecordStart(HeapOf(), mem, fnHead[..], graph, call);
      ghost var fns, h, was := graph[b], HeapOf(), graph;
      CountKeepsIff(h, fns, call);
      var fn := entry;
      if fn == 0 {
        fn := NewFn(self, b);
      }
      RecordedIsCounted(h, fns, call, fn);
      EnteredIdle(fns, self, fn);
      assert graph == was[b := Entered(fns, self, fn)];
      ghost var h1 := HeapOf();
      NewArc(fn, from, self, b);
      CountedFaithful(was, calls, call, fn, Refill(h1, ENTRY).slabPtr);
      calls := calls + [call];
      assert graph == was[b := graph[b]];
    }

    /** mcount: the function "self" was called from "from". The bucket's offset is bits 5 to 10 times four.
        Everything stays sound if and only if the memory the call needs is there. */
    method Mcount(self: u32, from: u32)
      requires Valid()
      modifies this`heapEnd, this`slabPtr, this`slabSize, this`live, this`mem, this`graph, this`calls, fnHead
      ensures calls == old(calls) + [Call(self, from)] && |graph| == BUCKETS
      ensures (HeapOf(), graph[Bucket(self)])
           == CountSpec(old(HeapOf()), old(graph[Bucket(self)]), Call(self, from))
      ensures Valid() <==> old(Room(HeapOf(), graph[Bucket(self)], Call(self, from)))
      ensures forall c :: 0 <= c < BUCKETS && c != Bucket(self) ==> graph[c] == old(graph[c])
    {
      ghost var call := Call(self, from);
      hide Sound, HeapInv, Owned, Rep, FindFn, WithArcs, FnList, ArcList, Faithful, CountSpec, Counted, Room, HasFn,
           HasArc, FindArc, Bump;
      CountStart(HeapOf(), mem, fnHead[..], graph, calls, call);
      var offset := self / 8 % 256 / 4 * 4;
      var b := offset / 4;
      assert b == Bucket(self) by { OffsetIsBucket(self); }
      var entry := SearchFn(mem, fnHead[b], self, graph[b]);
      if entry != 0 {
        var arc := SearchArc(mem, mem[entry + 8], from, FindFn(graph[b], self).arcs);
        if arc != 0 {
          BumpSound(HeapOf(), mem, fnHead[..], graph, b, call);
          ListedIsCounted(HeapOf(), graph[b], call);
          CountedFaithful(graph, calls, call, 0, 0);
          mem := mem[arc + 8 := (mem[arc + 8] + 1) % W32];
          graph := graph[b := Counted(graph[b], call, 0, 0)];
          calls := calls + [call];
          return;
        }
      }
      Record(self, from, entry, b);
    }
  }

  /** Shifting right by 3 and masking with 0xFC is four times the bucket. */
  lemma OffsetIsBucket(self: u32)
    ensures self / 8 % 256 / 4 * 4 == 4 * Bucket(self)
  {
    var q, i := self / 8, self % 8;
    var k, s := q / 256, q % 256;
    var m, j := s / 4, s % 4;
    DivUnique(self, 32, 64 * k + m, 8 * j + i);
    DivUnique(64 * k + m, 64, k, m);
  }

  /** What the slow path may rely on. */
  lemma RecordStart(h: Heap, mem: map<nat, nat>, heads: seq<u32>, graph: seq<seq<Fn>>, call: Call)
    requires Sound(h, mem, heads, graph) && !Listed(graph[Bucket(call.self)], call)
    ensures |graph| == BUCKETS && h.slabSize >= 0
    ensures var fns := graph[Bucket(call.self)];
            && (HasFn(fns, call.self) ==> FindFn(fns, call.self).at != 0 && FindFn(fns, call.self).at + 8 in mem)
            && (Room(h, fns, call) && !HasFn(fns, call.self) ==> Served(h, ENTRY))
  {
    hide HeapInv, Owned, FnList, FnWords, ArcList, ArcWords, HasFn, HasArc, FindFn, Served, AllocSpec, Refill;
    RefillWord(h);
    var b := Bucket(call.self);
    if HasFn(graph[b], call.self) {
      FoundFn(mem, heads[b], graph[b], call.self);
    }
  }

  /** What the search may rely on: the bucket's list, and in a function's entry a list of at least one arc. */
  lemma CountStart(h: Heap, mem: map<nat, nat>, heads: seq<u32>, graph: seq<seq<Fn>>, calls: seq<Call>, call: Call)
    requires Sound(h, mem, heads, graph) && Faithful(graph, calls)
    ensures |heads| == |graph| == BUCKETS
    ensures var b := Bucket(call.self);
            && FnList(mem, heads[b], graph[b])
            && (HasFn(graph[b], call.self) ==>
                  var f := FindFn(graph[b], call.self);
                  && f.at != 0 && f.at + 8 in mem && f.arcs != [] && ArcList(mem, mem[f.at + 8], f.arcs)
                  && (HasArc(f.arcs, call.from) ==> FindArc(f.arcs, call.from).at != 0))
  {
    hide HeapInv, Owned, FnList, FnWords, ArcList, ArcWords, FnsOnce, ArcsOnce, CountOf, Times, HasFn, HasArc, FindFn,
         FindArc;
    var b := Bucket(call.self);
    if HasFn(graph[b], call.self) {
      FoundFn(mem, heads[b], graph[b], call.self);
      FoundOnce(graph[b], b, call.self);
      var f := FindFn(graph[b], call.self);
      if HasArc(f.arcs, call.from) {
        FoundArcMapped(mem, mem[f.at + 8], f.arcs, call.from);
      }
    }
  }

  lemma {:induction false} FoundArcMapped(mem: map<nat, nat>, p: nat, arcs: seq<Arc>, from: u32)
    requires ArcList(mem, p, arcs) && HasArc(arcs, from)
    ensures FindArc(arcs, from).at != 0
    decreases arcs
  {
    if arcs[0].from != from {
      FoundArcMapped(mem, mem[p], arcs[1..], from);
    }
  }

  lemma ListedIsCounted(h: Heap, fns: seq<Fn>, call: Call)
    requires Listed(fns, call)
    ensures CountSpec(h, fns, call) == (h, Counted(fns, call, 0, 0)) && Room(h, fns, call)
    ensures Counted(fns, call, 0, 0) == WithArcs(fns, call.self, Bump(FindFn(fns, call.self).arcs, call.from))
  {
  }

  lemma OwnedGrows(mem: map<nat, nat>, live: seq<Block>, live': seq<Block>)
    requires Owned(mem, live) && |live| <= |live'| && forall i :: 0 <= i < |live| ==> live'[i] == live[i]
    ensures Owned(mem, live')
  {
    forall w | w in mem
      ensures exists i :: 0 <= i < |live'| && live'[i].at <= w && w + 4 <= live'[i].at + live'[i].size
    {
      var i :| 0 <= i < |live| && live[i].at <= w && w + 4 <= live[i].at + live[i].size;
      assert live'[i] == live[i];
    }
  }
}
