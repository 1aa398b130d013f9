/** The profiler's memory and its call graph, as values: the bump allocator over sbrk, and the linked lists the
    call counter keeps in the words it allocates. */
module GmonSpec {
  import opened Words

  const SLAB := 1020          // MCOUNT_SLAB_INCREMENT
  const ENTRY := 12           // sizeof both structures: three words
  const BUCKETS := 64         // HASH_BUCKETS
  const SBRK_FAILED := 0xFFFF_FFFF

  // ---------------------------------------------------------------- sbrk and the slab

  datatype Block = Block(at: nat, size: nat)

  /** The heap between "start" and "limit", what is left of the current slab, and every block handed out. */
  datatype Heap = Heap(start: nat, limit: nat, end: nat, slabPtr: nat, slabSize: int, live: seq<Block>)

  datatype Op = Sbrk(incr: int) | Alloc(size: nat)

  function AlignUp(a: nat): nat {
    (a + 3) / 4 * 4
  }

  /** The new heap end and the result of one sbrk: the end is aligned even when the request is refused. */
  function Grow(end: nat, limit: nat, incr: int): (r: (nat, nat)) {
    var e := AlignUp(end);
    if (e + incr) % W32 > limit then (e, SBRK_FAILED) else ((e + incr) % W32, e)
  }

  function SbrkSpec(h: Heap, incr: int): Heap {
    var (e, p) := Grow(h.end, h.limit, incr);
    h.(end := e, live := if p != SBRK_FAILED && incr > 0 then h.live + [Block(p, incr)] else h.live)
  }

  /** The slab mcount_allocate cuts from: a fresh one when "size" exceeds what is left, compared unsigned. */
  function Refill(h: Heap, size: nat): Heap {
    if size > h.slabSize % W32 then
      var (e, p) := Grow(h.end, h.limit, SLAB);
      h.(end := e, slabPtr := p, slabSize := SLAB)
    else h
  }

  function AllocSpec(h: Heap, size: nat): Heap {
    var r := Refill(h, size);
    r.(slabPtr := (r.slabPtr + size) % W32, slabSize := r.slabSize - size, live := r.live + [Block(r.slabPtr, size)])
  }

  function Step(h: Heap, op: Op): Heap {
    match op
    case Sbrk(incr) => SbrkSpec(h, incr)
    case Alloc(size) => AllocSpec(h, size)
  }

  predicate Inside(h: Heap, b: Block) {
    b.at % 4 == 0 && h.start <= b.at && b.at + b.size <= h.end && b.at + b.size <= h.limit
  }

  predicate Apart(a: Block, b: Block) {
    a.at + a.size <= b.at || b.at + b.size <= a.at
  }

  /** Every block handed out and the rest of the slab are aligned, inside the heap and pairwise apart. */
  ghost predicate HeapInv(h: Heap) {
    && 0 < h.start <= h.end <= AlignUp(h.limit)
    && h.limit <= 0x7FFF_FFFC
    && (forall i :: 0 <= i < |h.live| ==> Inside(h, h.live[i]))
    && (forall i, j :: 0 <= i < j < |h.live| ==> Apart(h.live[i], h.live[j]))
    && 0 <= h.slabSize <= SLAB
    && (h.slabSize > 0 ==> && Inside(h, Block(h.slabPtr, h.slabSize))
                           && forall i :: 0 <= i < |h.live| ==> Apart(h.live[i], Block(h.slabPtr, h.slabSize)))
  }

  /** What a caller may ask for: 32-bit increments, and structures made of words. */
  predicate Legal(op: Op) {
    match op
    case Sbrk(incr) => -0x8000_0000 <= incr < 0x8000_0000
    case Alloc(size) => 0 < size < W32 && size % 4 == 0
  }

  /** The request is served from the slab, or from a new slab that sbrk grants. */
  predicate Served(h: Heap, size: nat) {
    size <= h.slabSize || (size <= SLAB && AlignUp(h.end) + SLAB <= h.limit)
  }

  /** A shrinking sbrk is refused, or leaves every block in use below the new end. */
  predicate Harmless(h: Heap, op: Op) {
    match op
    case Sbrk(incr) =>
      var e := AlignUp(h.end) + incr;
      || incr >= 0
      || e < 0
      || e > h.limit
      || (h.start <= e && (forall i :: 0 <= i < |h.live| ==> h.live[i].at + h.live[i].size <= e)
          && (h.slabSize > 0 ==> h.slabPtr + h.slabSize <= e))
    case Alloc(size) => Served(h, size)
  }

  // ---------------------------------------------------------------- the call graph

  datatype Call = Call(self: u32, from: u32)

  /** A node of either list, with the address it lies at. */
  datatype Arc = Arc(at: nat, from: u32, count: u32)
  datatype Fn = Fn(at: nat, self: u32, arcs: seq<Arc>)

  /** Bits 5 to 10 of the address choose the bucket. */
  function Bucket(self: u32): (b: nat)
    ensures b < BUCKETS
  {
    self / 32 % BUCKETS
  }

  predicate HasArc(arcs: seq<Arc>, from: u32) {
    arcs != [] && (arcs[0].from == from || HasArc(arcs[1..], from))
  }

  predicate HasFn(fns: seq<Fn>, self: u32) {
    fns != [] && (fns[0].self == self || HasFn(fns[1..], self))
  }

  function FindArc(arcs: seq<Arc>, from: u32): Arc
    requires HasArc(arcs, from)
  {
    if arcs[0].from == from then arcs[0] else FindArc(arcs[1..], from)
  }

  function FindFn(fns: seq<Fn>, self: u32): Fn
    requires HasFn(fns, self)
  {
    if fns[0].self == self then fns[0] else FindFn(fns[1..], self)
  }

  function Bump(arcs: seq<Arc>, from: u32): seq<Arc>
    requires HasArc(arcs, from)
  {
    if arcs[0].from == from then [arcs[0].(count := (arcs[0].count + 1) % W32)] + arcs[1..]
    else [arcs[0]] + Bump(arcs[1..], from)
  }

  function WithArcs(fns: seq<Fn>, self: u32, arcs: seq<Arc>): seq<Fn>
    requires HasFn(fns, self)
  {
    if fns[0].self == self then [fns[0].(arcs := arcs)] + fns[1..]
    else [fns[0]] + WithArcs(fns[1..], self, arcs)
  }

  predicate Listed(fns: seq<Fn>, call: Call) {
    HasFn(fns, call.self) && HasArc(FindFn(fns, call.self).arcs, call.from)
  }

  /** The bucket with a function entry for "self": a new one goes to the head of the list. */
  function Entered(fns: seq<Fn>, self: u32, at: nat): (r: seq<Fn>)
    ensures HasFn(r, self)
  {
    if HasFn(fns, self) then fns else [Fn(at, self, [])] + fns
  }

  /** The bucket after one call: its arc counted, or added at the head of its function's list. */
  function Counted(fns: seq<Fn>, call: Call, fnAt: nat, arcAt: nat): seq<Fn> {
    var es := Entered(fns, call.self, fnAt);
    var arcs := FindFn(es, call.self).arcs;
    WithArcs(es, call.self,
             if HasArc(arcs, call.from) then Bump(arcs, call.from) else [Arc(arcAt, call.from, 1)] + arcs)
  }

  /** The heap and the bucket after one call: up to two entries are allocated, the function's first. */
  function CountSpec(h: Heap, fns: seq<Fn>, call: Call): (Heap, seq<Fn>) {
    if Listed(fns, call) then (h, Counted(fns, call, 0, 0))
    else
      var h1 := if HasFn(fns, call.self) then h else AllocSpec(h, ENTRY);
      (AllocSpec(h1, ENTRY), Counted(fns, call, Refill(h, ENTRY).slabPtr, Refill(h1, ENTRY).slabPtr))
  }

  /** The memory that a call needs is there. */
  predicate Room(h: Heap, fns: seq<Fn>, call: Call) {
    || Listed(fns, call)
    || (Served(h, ENTRY) && (HasFn(fns, call.self) || Served(AllocSpec(h, ENTRY), ENTRY)))
  }

  // ---------------------------------------------------------------- the lists in memory

  /** The three words of an entry: next, the address it is about, and the arc list or the count. */
  function WordsOf(p: nat): set<nat> {
    {p, p + 4, p + 8}
  }

  function ArcWords(arcs: seq<Arc>): set<nat> {
    if arcs == [] then {} else WordsOf(arcs[0].at) + ArcWords(arcs[1..])
  }

  function FnWords(fns: seq<Fn>): set<nat> {
    if fns == [] then {} else WordsOf(fns[0].at) + ArcWords(fns[0].arcs) + FnWords(fns[1..])
  }

  /** Following the next words from "p" meets exactly these arcs, each in words of its own. */
  ghost predicate ArcList(mem: map<nat, nat>, p: nat, arcs: seq<Arc>)
    decreases arcs
  {
    if arcs == [] then p == 0
    else
      && p == arcs[0].at
      && p != 0
      && WordsOf(p) <= mem.Keys
      && WordsOf(p) !! ArcWords(arcs[1..])
      && mem[p + 4] == arcs[0].from
      && mem[p + 8] == arcs[0].count
      && ArcList(mem, mem[p], arcs[1..])
  }

  ghost predicate FnList(mem: map<nat, nat>, p: nat, fns: seq<Fn>)
    decreases fns
  {
    if fns == [] then p == 0
    else
      && p == fns[0].at
      && p != 0
      && WordsOf(p) <= mem.Keys
      && WordsOf(p) !! ArcWords(fns[0].arcs)
      && WordsOf(p) + ArcWords(fns[0].arcs) !! FnWords(fns[1..])
      && mem[p + 4] == fns[0].self
      && ArcList(mem, mem[p + 8], fns[0].arcs)
      && FnList(mem, mem[p], fns[1..])
  }

  /** The bucket heads lead to the whole graph, no word of which serves two buckets. */
  ghost predicate Rep(mem: map<nat, nat>, heads: seq<u32>, graph: seq<seq<Fn>>) {
    && |heads| == |graph| == BUCKETS
    && (forall b :: 0 <= b < BUCKETS ==> FnList(mem, heads[b], graph[b]))
    && (forall b, c :: 0 <= b < c < BUCKETS ==> FnWords(graph[b]) !! FnWords(graph[c]))
  }

  /** Every word in use lies in a block that was handed out. */
  ghost predicate Owned(mem: map<nat, nat>, live: seq<Block>) {
    forall w :: w in mem ==> exists i :: 0 <= i < |live| && live[i].at <= w && w + 4 <= live[i].at + live[i].size
  }

  // ---------------------------------------------------------------- what the graph says

  function Times(calls: seq<Call>, call: Call): nat {
    if calls == [] then 0 else Times(calls[..|calls| - 1], call) + if calls[|calls| - 1] == call then 1 else 0
  }

  function ArcCount(arcs: seq<Arc>, from: u32): Option<u32> {
    if HasArc(arcs, from) then Some(FindArc(arcs, from).count) else None
  }

  function CountOf(fns: seq<Fn>, call: Call): Option<u32> {
    if HasFn(fns, call.self) then ArcCount(FindFn(fns, call.self).arcs, call.from) else None
  }

  ghost predicate ArcsOnce(arcs: seq<Arc>) {
    arcs == [] || (!HasArc(arcs[1..], arcs[0].from) && ArcsOnce(arcs[1..]))
  }

  ghost predicate FnsOnce(fns: seq<Fn>, b: nat) {
    fns == [] || (&& !HasFn(fns[1..], fns[0].self)
                  && Bucket(fns[0].self) == b
                  && fns[0].arcs != []
                  && ArcsOnce(fns[0].arcs)
                  && FnsOnce(fns[1..], b))
  }

  /** The graph lists each function and each arc once, in the function's bucket, no function without an arc,
      and shows exactly the calls that were made, each count modulo 2^32. */
  ghost predicate Faithful(graph: seq<seq<Fn>>, calls: seq<Call>) {
    && |graph| == BUCKETS
    && (forall b :: 0 <= b < BUCKETS ==> FnsOnce(graph[b], b))
    && (forall call: Call :: CountOf(graph[Bucket(call.self)], call)
                    == if Times(calls, call) == 0 then None else Some(Times(calls, call) % W32))
  }
}
