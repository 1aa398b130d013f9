/** The linked lists under the writes of the call counter, and the meaning of the graph they hold. */
module GmonLists {
  import opened Words
  import opened GmonSpec
  import opened GmonHeap

  // ---------------------------------------------------------------- framing

  ghost predicate Agree(mem: map<nat, nat>, mem': map<nat, nat>, words: set<nat>) {
    forall w :: w in words ==> w in mem && w in mem' && mem'[w] == mem[w]
  }

  lemma {:induction false} ArcFrame(mem: map<nat, nat>, mem': map<nat, nat>, p: nat, arcs: seq<Arc>)
    requires ArcList(mem, p, arcs) && Agree(mem, mem', ArcWords(arcs))
    ensures ArcList(mem', p, arcs)
    decreases arcs
  {
    if arcs != [] {
      assert mem'[p] == mem[p] && mem'[p + 4] == mem[p + 4] && mem'[p + 8] == mem[p + 8];
      ArcFrame(mem, mem', mem[p], arcs[1..]);
    }
  }

  lemma {:induction false} FnFrame(mem: map<nat, nat>, mem': map<nat, nat>, p: nat, fns: seq<Fn>)
    requires FnList(mem, p, fns) && Agree(mem, mem', FnWords(fns))
    ensures FnList(mem', p, fns)
    decreases fns
  {
    if fns != [] {
      assert mem'[p] == mem[p] && mem'[p + 4] == mem[p + 4] && mem'[p + 8] == mem[p + 8];
      ArcFrame(mem, mem', mem[p + 8], fns[0].arcs);
      FnFrame(mem, mem', mem[p], fns[1..]);
    }
  }

  lemma {:induction false} ArcWordsMapped(mem: map<nat, nat>, p: nat, arcs: seq<Arc>)
    requires ArcList(mem, p, arcs)
    ensures ArcWords(arcs) <= mem.Keys
    decreases arcs
  {
    if arcs != [] {
      ArcWordsMapped(mem, mem[p], arcs[1..]);
    }
  }

  lemma {:induction false} FnWordsMapped(mem: map<nat, nat>, p: nat, fns: seq<Fn>)
    requires FnList(mem, p, fns)
    ensures FnWords(fns) <= mem.Keys
    decreases fns
  {
    if fns != [] {
      ArcWordsMapped(mem, mem[p + 8], fns[0].arcs);
      FnWordsMapped(mem, mem[p], fns[1..]);
    }
  }

  // ---------------------------------------------------------------- finding an entry

  lemma {:induction false} FoundArcWords(arcs: seq<Arc>, from: u32)
    requires HasArc(arcs, from)
    ensures WordsOf(FindArc(arcs, from).at) <= ArcWords(arcs) && FindArc(arcs, from).from == from
  {
    if arcs[0].from != from {
      FoundArcWords(arcs[1..], from);
    }
  }

  lemma {:induction false} FoundFn(mem: map<nat, nat>, p: nat, fns: seq<Fn>, self: u32)
    requires FnList(mem, p, fns) && HasFn(fns, self)
    ensures var f := FindFn(fns, self);
            && f.at != 0
            && f.self == self
            && WordsOf(f.at) <= FnWords(fns)
            && WordsOf(f.at) <= mem.Keys
            && ArcWords(f.arcs) <= FnWords(fns)
            && WordsOf(f.at) !! ArcWords(f.arcs)
            && ArcList(mem, mem[f.at + 8], f.arcs)
    decreases fns
  {
    hide ArcWords, ArcList;
    if fns[0].self != self {
      FoundFn(mem, mem[p], fns[1..], self);
    }
  }

  // ---------------------------------------------------------------- writing an entry

  /** Counting an arc up in place. */
  lemma {:induction false} BumpList(mem: map<nat, nat>, p: nat, arcs: seq<Arc>, from: u32)
    requires ArcList(mem, p, arcs) && HasArc(arcs, from)
    ensures var a := FindArc(arcs, from);
            && a.at + 8 in mem && mem[a.at + 8] == a.count
            && ArcList(mem[a.at + 8 := (a.count + 1) % W32], p, Bump(arcs, from))
    ensures ArcWords(Bump(arcs, from)) == ArcWords(arcs)
    decreases arcs
  {
    if arcs[0].from == from {
      BumpFirst(mem, p, arcs, from);
    } else {
      BumpList(mem, mem[p], arcs[1..], from);
      BumpLater(mem, p, arcs, from);
    }
  }

  lemma BumpFirst(mem: map<nat, nat>, p: nat, arcs: seq<Arc>, from: u32)
    requires ArcList(mem, p, arcs) && arcs != [] && arcs[0].from == from
    ensures ArcList(mem[p + 8 := (arcs[0].count + 1) % W32], p, Bump(arcs, from))
    ensures ArcWords(Bump(arcs, from)) == ArcWords(arcs)
  {
    var mem' := mem[p + 8 := (arcs[0].count + 1) % W32];
    ArcWordsMapped(mem, mem[p], arcs[1..]);
    ArcFrame(mem, mem', mem[p], arcs[1..]);
    assert Bump(arcs, from)[1..] == arcs[1..];
  }

  lemma BumpLater(mem: map<nat, nat>, p: nat, arcs: seq<Arc>, from: u32)
    requires ArcList(mem, p, arcs) && HasArc(arcs, from) && arcs[0].from != from
    requires var a := FindArc(arcs[1..], from);
             ArcList(mem[a.at + 8 := (a.count + 1) % W32], mem[p], Bump(arcs[1..], from))
    requires ArcWords(Bump(arcs[1..], from)) == ArcWords(arcs[1..])
    ensures var a := FindArc(arcs, from);
            ArcList(mem[a.at + 8 := (a.count + 1) % W32], p, Bump(arcs, from))
    ensures ArcWords(Bump(arcs, from)) == ArcWords(arcs)
  {
    var a := FindArc(arcs[1..], from);
    FoundArcWords(arcs[1..], from);
    var mem' := mem[a.at + 8 := (a.count + 1) % W32];
    assert mem'[p] == mem[p] && mem'[p + 4] == mem[p + 4] && mem'[p + 8] == mem[p + 8];
    assert Bump(arcs, from)[1..] == Bump(arcs[1..], from) && Bump(arcs, from)[0] == arcs[0];
  }

  lemma WithoutInner(w: set<nat>, a: set<nat>, r: set<nat>, inner: set<nat>)
    requires w + a !! r && inner <= r
    ensures (w + a + r) - inner == w + a + (r - inner)
  {
  }

  lemma WithoutMiddle(w: set<nat>, a: set<nat>, r: set<nat>)
    requires w !! a && w + a !! r
    ensures (w + a + r) - a == w + r
  {
  }

  /** The words of the bucket with a function's arc list exchanged. */
  lemma {:induction false} WithArcsWords(mem: map<nat, nat>, p: nat, fns: seq<Fn>, self: u32, arcs: seq<Arc>)
    requires FnList(mem, p, fns) && HasFn(fns, self)
    ensures FnWords(WithArcs(fns, self, arcs)) == FnWords(fns) - ArcWords(FindFn(fns, self).arcs) + ArcWords(arcs)
    decreases fns
  {
    hide ArcWords, ArcList;
    var w, a, r := WordsOf(fns[0].at), ArcWords(fns[0].arcs), FnWords(fns[1..]);
    if fns[0].self == self {
      WithoutMiddle(w, a, r);
      assert WithArcs(fns, self, arcs)[1..] == fns[1..];
    } else {
      FoundFn(mem, mem[p], fns[1..], self);
      WithoutInner(w, a, r, ArcWords(FindFn(fns, self).arcs));
      WithArcsWords(mem, mem[p], fns[1..], self, arcs);
      assert WithArcs(fns, self, arcs)[1..] == WithArcs(fns[1..], self, arcs);
    }
  }

  /** A function's arc list is exchanged: the rest of the bucket is as it was. */
  lemma {:induction false} WithArcsList(mem: map<nat, nat>, mem': map<nat, nat>, p: nat, fns: seq<Fn>, self: u32,
                                        arcs: seq<Arc>)
    requires FnList(mem, p, fns) && HasFn(fns, self)
    requires var f := FindFn(fns, self);
             && Agree(mem, mem', FnWords(fns) - ArcWords(f.arcs) - {f.at + 8})
             && ArcWords(arcs) !! FnWords(fns) - ArcWords(f.arcs)
             && f.at + 8 in mem'
             && ArcList(mem', mem'[f.at + 8], arcs)
    ensures FnList(mem', p, WithArcs(fns, self, arcs))
    decreases fns
  {
    hide Agree, ArcWords, ArcList, HasArc;
    var f := FindFn(fns, self);
    var w, a, r := WordsOf(fns[0].at), ArcWords(fns[0].arcs), FnWords(fns[1..]);
    var same := FnWords(fns) - ArcWords(f.arcs) - {f.at + 8};
    var out := WithArcs(fns, self, arcs);
    if fns[0].self == self {
      WithoutMiddle(w, a, r);
      assert same == {p, p + 4} + r;
      AgreeAt(mem, mem', same, p);
      AgreeAt(mem, mem', same, p + 4);
      AgreeOn(mem, mem', same, r);
      FnFrame(mem, mem', mem[p], fns[1..]);
      assert out[0] == fns[0].(arcs := arcs) && out[1..] == fns[1..];
    } else {
      FoundFn(mem, mem[p], fns[1..], self);
      WithoutInner(w, a, r, ArcWords(f.arcs));
      assert same == w + a + (r - ArcWords(f.arcs) - {f.at + 8});
      AgreeOn(mem, mem', same, r - ArcWords(f.arcs) - {f.at + 8});
      WithArcsList(mem, mem', mem[p], fns[1..], self, arcs);
      WithArcsWords(mem, mem[p], fns[1..], self, arcs);
      HeadStays(mem, mem', p, fns, same);
      assert out[0] == fns[0] && out[1..] == WithArcs(fns[1..], self, arcs);
    }
  }

  lemma HeadStays(mem: map<nat, nat>, mem': map<nat, nat>, p: nat, fns: seq<Fn>, same: set<nat>)
    requires fns != [] && FnList(mem, p, fns) && Agree(mem, mem', same)
    requires WordsOf(p) + ArcWords(fns[0].arcs) <= same
    ensures WordsOf(p) <= mem'.Keys && mem'[p] == mem[p] && mem'[p + 4] == mem[p + 4] && mem'[p + 8] == mem[p + 8]
    ensures ArcList(mem', mem'[p + 8], fns[0].arcs)
  {
    AgreeAt(mem, mem', same, p);
    AgreeAt(mem, mem', same, p + 4);
    AgreeAt(mem, mem', same, p + 8);
    AgreeOn(mem, mem', same, ArcWords(fns[0].arcs));
    hide Agree, ArcWords, ArcList, FnWords;
    ArcFrame(mem, mem', mem[p + 8], fns[0].arcs);
  }

  lemma AgreeOn(mem: map<nat, nat>, mem': map<nat, nat>, words: set<nat>, sub: set<nat>)
    requires Agree(mem, mem', words) && sub <= words
    ensures Agree(mem, mem', sub)
  {
  }

  lemma AgreeAt(mem: map<nat, nat>, mem': map<nat, nat>, words: set<nat>, w: nat)
    requires Agree(mem, mem', words) && w in words
    ensures w in mem && w in mem' && mem'[w] == mem[w]
  {
  }

  // ---------------------------------------------------------------- the three updates of a bucket

  /** The words at "at" are in no list yet. */
  ghost predicate Fresh(mem: map<nat, nat>, at: nat) {
    at != 0 && WordsOf(at) !! mem.Keys
  }

  /** The memory after a function's entry, and after an arc's, was written at "at". */
  function FnWritten(mem: map<nat, nat>, at: nat, self: u32, next: u32): map<nat, nat> {
    mem[at + 4 := self][at + 8 := 0][at := next]
  }

  function ArcWritten(mem: map<nat, nat>, at: nat, from: u32, fn: nat): map<nat, nat>
    requires fn + 8 in mem
  {
    mem[at + 4 := from][at + 8 := 1][at := mem[fn + 8]][fn + 8 := at]
  }

  /** A bucket's list became another, written in its own words and in "extra" ones. */
  ghost predicate Moved(mem: map<nat, nat>, mem': map<nat, nat>, fns: seq<Fn>, head': nat, fns': seq<Fn>,
                        extra: set<nat>) {
    && FnList(mem', head', fns')
    && extra !! mem.Keys
    && mem'.Keys == mem.Keys + extra
    && FnWords(fns') == extra + FnWords(fns)
    && Agree(mem, mem', mem.Keys - FnWords(fns))
  }

  lemma EnteredList(mem: map<nat, nat>, head: u32, fns: seq<Fn>, self: u32, at: nat)
    requires FnList(mem, head, fns) && Fresh(mem, at)
    ensures FnList(FnWritten(mem, at, self, head), at, [Fn(at, self, [])] + fns)
    ensures FnWords([Fn(at, self, [])] + fns) == WordsOf(at) + FnWords(fns)
  {
    FnWordsMapped(mem, head, fns);
    FnFrame(mem, FnWritten(mem, at, self, head), head, fns);
    assert ([Fn(at, self, [])] + fns)[1..] == fns;
  }

  /** A new function entry goes to the head of its bucket. */
  lemma EnterList(mem: map<nat, nat>, head: u32, fns: seq<Fn>, self: u32, at: nat)
    requires FnList(mem, head, fns) && Fresh(mem, at)
    ensures Moved(mem, FnWritten(mem, at, self, head), fns, at, [Fn(at, self, [])] + fns, WordsOf(at))
  {
    hide FnList, FnWords;
    EnteredList(mem, head, fns, self, at);
  }

  lemma Exchanged(all: set<nat>, mine: set<nat>, extra: set<nat>)
    requires mine <= all
    ensures all - mine + (extra + mine) == extra + all
  {
  }

  /** A function's arc list becomes another, written in its own words, in "extra" ones and in the head word. */
  lemma ArcsMove(mem: map<nat, nat>, mem': map<nat, nat>, head: nat, fns: seq<Fn>, self: u32, arcs: seq<Arc>,
                 extra: set<nat>)
    requires FnList(mem, head, fns) && HasFn(fns, self)
    requires var f := FindFn(fns, self);
             && extra !! mem.Keys
             && mem'.Keys == mem.Keys + extra
             && Agree(mem, mem', mem.Keys - ArcWords(f.arcs) - {f.at + 8})
             && ArcWords(arcs) == extra + ArcWords(f.arcs)
             && f.at + 8 in mem'
             && ArcList(mem', mem'[f.at + 8], arcs)
    ensures Moved(mem, mem', fns, head, WithArcs(fns, self, arcs), extra)
  {
    hide FnList, FnWords, ArcList, ArcWords, HasFn, FindFn, WithArcs, Agree;
    var f := FindFn(fns, self);
    FoundFn(mem, head, fns, self);
    FnWordsMapped(mem, head, fns);
    var all, mine := FnWords(fns), ArcWords(f.arcs);
    var free := mem.Keys - mine - {f.at + 8};
    assert f.at + 8 in all;
    AgreeOn(mem, mem', free, all - mine - {f.at + 8});
    AgreeOn(mem, mem', free, mem.Keys - all);
    assert extra + mine !! all - mine;
    WithArcsList(mem, mem', head, fns, self, arcs);
    WithArcsWords(mem, head, fns, self, arcs);
    Exchanged(all, mine, extra);
  }

  /** A new arc goes to the head of its function's list. */
  lemma AddArcList(mem: map<nat, nat>, head: nat, fns: seq<Fn>, call: Call, at: nat)
    requires FnList(mem, head, fns) && HasFn(fns, call.self) && Fresh(mem, at)
    ensures var f := FindFn(fns, call.self);
            && f.at + 8 in mem
            && Moved(mem, ArcWritten(mem, at, call.from, f.at), fns,
                     head, WithArcs(fns, call.self, [Arc(at, call.from, 1)] + f.arcs), WordsOf(at))
  {
    hide FnList, FnWords, HasFn, FindFn, WithArcs, Moved;
    var f := FindFn(fns, call.self);
    FoundFn(mem, head, fns, call.self);
    var mem' := ArcWritten(mem, at, call.from, f.at);
    var arcs := [Arc(at, call.from, 1)] + f.arcs;
    assert arcs[1..] == f.arcs;
    ArcWordsMapped(mem, mem[f.at + 8], f.arcs);
    ArcFrame(mem, mem', mem[f.at + 8], f.arcs);
    ArcsMove(mem, mem', head, fns, call.self, arcs, WordsOf(at));
  }

  /** A listed arc is counted in place. */
  lemma BumpBucket(mem: map<nat, nat>, head: nat, fns: seq<Fn>, call: Call)
    requires FnList(mem, head, fns) && Listed(fns, call)
    ensures var f := FindFn(fns, call.self);
            var a := FindArc(f.arcs, call.from);
            && a.at + 8 in mem && mem[a.at + 8] == a.count
            && Moved(mem, mem[a.at + 8 := (a.count + 1) % W32], fns,
                     head, WithArcs(fns, call.self, Bump(f.arcs, call.from)), {})
  {
    hide FnList, FnWords, ArcList, ArcWords, HasArc, HasFn, Bump, FindArc, FindFn, WithArcs, Moved;
    var f := FindFn(fns, call.self);
    var a := FindArc(f.arcs, call.from);
    FoundFn(mem, head, fns, call.self);
    FoundArcWords(f.arcs, call.from);
    BumpList(mem, mem[f.at + 8], f.arcs, call.from);
    var mem' := mem[a.at + 8 := (a.count + 1) % W32];
    assert a.at + 8 in ArcWords(f.arcs);
    ArcsMove(mem, mem', head, fns, call.self, Bump(f.arcs, call.from), {});
  }

  /** When one bucket moves, the others are as they were. */
  lemma RepStep(mem: map<nat, nat>, mem': map<nat, nat>, heads: seq<u32>, graph: seq<seq<Fn>>, b: nat, head: u32,
                fns: seq<Fn>, extra: set<nat>)
    requires Rep(mem, heads, graph) && b < BUCKETS && Moved(mem, mem', graph[b], head, fns, extra)
    ensures Rep(mem', heads[b := head], graph[b := fns])
  {
    hide FnList, FnWords;
    forall c | 0 <= c < BUCKETS && c != b
      ensures FnList(mem', heads[c], graph[c]) && FnWords(graph[c]) !! FnWords(fns)
    {
      FnWordsMapped(mem, heads[c], graph[c]);
      FnFrame(mem, mem', heads[c], graph[c]);
    }
  }

  // ---------------------------------------------------------------- what the updates mean

  lemma {:induction false} BumpMeans(arcs: seq<Arc>, from: u32, g: u32)
    requires HasArc(arcs, from)
    ensures HasArc(Bump(arcs, from), g) == HasArc(arcs, g)
    ensures ArcCount(Bump(arcs, from), g)
         == if g == from then Some((FindArc(arcs, from).count + 1) % W32) else ArcCount(arcs, g)
  {
    if arcs[0].from == from {
      assert Bump(arcs, from)[1..] == arcs[1..];
    } else {
      assert Bump(arcs, from)[1..] == Bump(arcs[1..], from);
      BumpMeans(arcs[1..], from, g);
    }
  }

  lemma {:induction false} BumpOnce(arcs: seq<Arc>, from: u32)
    requires HasArc(arcs, from) && ArcsOnce(arcs)
    ensures ArcsOnce(Bump(arcs, from))
  {
    if arcs[0].from == from {
      assert Bump(arcs, from)[1..] == arcs[1..];
    } else {
      assert Bump(arcs, from)[1..] == Bump(arcs[1..], from);
      BumpMeans(arcs[1..], from, arcs[0].from);
      BumpOnce(arcs[1..], from);
    }
  }

  lemma {:induction false} WithArcsMeans(fns: seq<Fn>, self: u32, arcs: seq<Arc>, s: u32)
    requires HasFn(fns, self)
    ensures HasFn(WithArcs(fns, self, arcs), s) == HasFn(fns, s)
    ensures HasFn(fns, s) ==>
              FindFn(WithArcs(fns, self, arcs), s).arcs == if s == self then arcs else FindFn(fns, s).arcs
  {
    if fns[0].self == self {
      assert WithArcs(fns, self, arcs)[1..] == fns[1..];
    } else {
      assert WithArcs(fns, self, arcs)[1..] == WithArcs(fns[1..], self, arcs);
      WithArcsMeans(fns[1..], self, arcs, s);
    }
  }

  lemma {:induction false} WithArcsOnce(fns: seq<Fn>, b: nat, self: u32, arcs: seq<Arc>)
    requires FnsOnce(fns, b) && HasFn(fns, self) && arcs != [] && ArcsOnce(arcs)
    ensures FnsOnce(WithArcs(fns, self, arcs), b)
  {
    if fns[0].self == self {
      assert WithArcs(fns, self, arcs)[1..] == fns[1..];
    } else {
      assert WithArcs(fns, self, arcs)[1..] == WithArcs(fns[1..], self, arcs);
      WithArcsMeans(fns[1..], self, arcs, fns[0].self);
      WithArcsOnce(fns[1..], b, self, arcs);
    }
  }

  lemma {:induction false} FoundOnce(fns: seq<Fn>, b: nat, self: u32)
    requires FnsOnce(fns, b) && HasFn(fns, self)
    ensures FindFn(fns, self).arcs != [] && ArcsOnce(FindFn(fns, self).arcs)
  {
    if fns[0].self != self {
      FoundOnce(fns[1..], b, self);
    }
  }

  /** The arcs of a function after one more call. */
  function More(arcs: seq<Arc>, from: u32, at: nat): seq<Arc> {
    if HasArc(arcs, from) then Bump(arcs, from) else [Arc(at, from, 1)] + arcs
  }

  lemma MoreMeans(arcs: seq<Arc>, from: u32, at: nat, g: u32)
    ensures More(arcs, from, at) != []
    ensures ArcsOnce(arcs) ==> ArcsOnce(More(arcs, from, at))
    ensures ArcCount(More(arcs, from, at), g)
         == if g != from then ArcCount(arcs, g)
            else if HasArc(arcs, from) then Some((FindArc(arcs, from).count + 1) % W32) else Some(1)
  {
    if HasArc(arcs, from) {
      BumpMeans(arcs, from, g);
      if ArcsOnce(arcs) {
        BumpOnce(arcs, from);
      }
    } else {
      assert ([Arc(at, from, 1)] + arcs)[1..] == arcs;
    }
  }

  /** One call adds one to the count of its own arc, and to no other. */
  lemma CountedMeans(fns: seq<Fn>, call: Call, fnAt: nat, arcAt: nat, other: Call)
    ensures CountOf(Counted(fns, call, fnAt, arcAt), other)
         == if other != call then CountOf(fns, other)
            else if CountOf(fns, call) == None then Some(1) else Some((CountOf(fns, call).value + 1) % W32)
  {
    var es := Entered(fns, call.self, fnAt);
    var arcs := FindFn(es, call.self).arcs;
    assert es == fns || es[1..] == fns;
    WithArcsMeans(es, call.self, More(arcs, call.from, arcAt), other.self);
    MoreMeans(arcs, call.from, arcAt, other.from);
  }

  lemma CountedOnce(fns: seq<Fn>, call: Call, fnAt: nat, arcAt: nat)
    requires FnsOnce(fns, Bucket(call.self))
    ensures FnsOnce(Counted(fns, call, fnAt, arcAt), Bucket(call.self))
  {
    var es := Entered(fns, call.self, fnAt);
    var arcs := FindFn(es, call.self).arcs;
    MoreMeans(arcs, call.from, arcAt, call.from);
    if HasFn(fns, call.self) {
      FoundOnce(fns, Bucket(call.self), call.self);
      WithArcsOnce(fns, Bucket(call.self), call.self, More(arcs, call.from, arcAt));
    } else {
      assert es[1..] == fns && Counted(fns, call, fnAt, arcAt)[1..] == fns;
    }
  }

  /** A graph that shows the calls so far, shows the next one too. */
  lemma CountedFaithful(graph: seq<seq<Fn>>, calls: seq<Call>, call: Call, fnAt: nat, arcAt: nat)
    requires Faithful(graph, calls)
    ensures Faithful(graph[Bucket(call.self) := Counted(graph[Bucket(call.self)], call, fnAt, arcAt)], calls + [call])
  {
    var b := Bucket(call.self);
    var graph' := graph[b := Counted(graph[b], call, fnAt, arcAt)];
    CountedOnce(graph[b], call, fnAt, arcAt);
    hide Counted, CountOf, FnsOnce;
    assert (calls + [call])[..|calls|] == calls;
    forall other: Call
      ensures CountOf(graph'[Bucket(other.self)], other)
           == if Times(calls + [call], other) == 0 then None else Some(Times(calls + [call], other) % W32)
    {
      CountedMeans(graph[b], call, fnAt, arcAt, other);
      CountWraps(Times(calls, other));
    }
  }

  lemma EnteredIdle(fns: seq<Fn>, self: u32, at: nat)
    ensures HasFn(fns, self) ==> Entered(fns, self, at) == fns
  {
  }

  /** The two halves of the slow path together are the specified step. */
  lemma RecordedIsCounted(h: Heap, fns: seq<Fn>, call: Call, fn: nat)
    requires !Listed(fns, call)
    requires fn == if HasFn(fns, call.self) then FindFn(fns, call.self).at else Refill(h, ENTRY).slabPtr
    ensures var es := Entered(fns, call.self, fn);
            var h1 := if HasFn(fns, call.self) then h else AllocSpec(h, ENTRY);
            var arc := Refill(h1, ENTRY).slabPtr;
            var out := WithArcs(es, call.self, [Arc(arc, call.from, 1)] + FindFn(es, call.self).arcs);
            && FindFn(es, call.self).at == fn
            && (Room(h, fns, call) ==> Served(h1, ENTRY))
            && out == Counted(fns, call, fn, arc)
            && (AllocSpec(h1, ENTRY), out) == CountSpec(h, fns, call)
  {
  }

  lemma CountWraps(n: nat)
    ensures (n % W32 + 1) % W32 == (n + 1) % W32
  {
  }

  // ---------------------------------------------------------------- memory and blocks

  /** A block just handed out lies apart from every word in use. */
  lemma NewBlockFresh(mem: map<nat, nat>, h: Heap)
    requires HeapInv(h) && h.live != [] && Owned(mem, h.live[..|h.live| - 1]) && h.live[|h.live| - 1].size == ENTRY
    ensures Fresh(mem, h.live[|h.live| - 1].at)
    ensures forall mem': map<nat, nat> ::
              mem'.Keys == mem.Keys + WordsOf(h.live[|h.live| - 1].at) ==> Owned(mem', h.live)
  {
    var n := |h.live| - 1;
    var at := h.live[n].at;
    forall w | w in mem
      ensures w !in WordsOf(at)
      ensures exists i :: 0 <= i < |h.live| && h.live[i].at <= w && w + 4 <= h.live[i].at + h.live[i].size
    {
      var i :| 0 <= i < n && h.live[..n][i].at <= w && w + 4 <= h.live[..n][i].at + h.live[..n][i].size;
      assert Apart(h.live[i], h.live[n]);
    }
    assert Inside(h, h.live[n]);
  }

  /** The allocator keeps its blocks apart, every word in use lies in one, and the lists are the graph. */
  ghost predicate Sound(h: Heap, mem: map<nat, nat>, heads: seq<u32>, graph: seq<seq<Fn>>) {
    HeapInv(h) && Owned(mem, h.live) && Rep(mem, heads, graph)
  }

  /** A served allocation yields three fresh words below 2^32. */
  lemma AllocFresh(h: Heap, mem: map<nat, nat>)
    requires HeapInv(h) && Owned(mem, h.live) && Served(h, ENTRY)
    ensures var (h', at) := (AllocSpec(h, ENTRY), Refill(h, ENTRY).slabPtr);
            && HeapInv(h') && Fresh(mem, at) && at < W32
            && forall mem': map<nat, nat> :: mem'.Keys == mem.Keys + WordsOf(at) ==> Owned(mem', h'.live)
  {
    var (h', at) := (AllocSpec(h, ENTRY), Refill(h, ENTRY).slabPtr);
    AllocKeepsIff(h, ENTRY);
    assert h'.live[|h'.live| - 1] == Block(at, ENTRY) && h'.live[..|h'.live| - 1] == h.live;
    assert Inside(h', h'.live[|h'.live| - 1]);
    hide HeapInv, Owned, AllocSpec, Refill, Fresh;
    NewBlockFresh(mem, h');
  }

  lemma NewFnSound(h: Heap, mem: map<nat, nat>, heads: seq<u32>, graph: seq<seq<Fn>>, b: nat, self: u32)
    requires Sound(h, mem, heads, graph) && b < BUCKETS && !HasFn(graph[b], self)
    ensures var at := Refill(h, ENTRY).slabPtr;
            && at < W32
            && h.slabSize >= 0 && AllocSpec(h, ENTRY).slabSize >= 0 && |graph| == |heads| == BUCKETS
            && (Served(h, ENTRY) ==>
                  Sound(AllocSpec(h, ENTRY), FnWritten(mem, at, self, heads[b]), heads[b := at],
                        graph[b := Entered(graph[b], self, at)]))
  {
    hide HeapInv, Owned, AllocSpec, Refill, FnList, FnWords, Served, Moved, Fresh, HasFn;
    RefillWord(h);
    if Served(h, ENTRY) {
      var at := Refill(h, ENTRY).slabPtr;
      AllocFresh(h, mem);
      EnterList(mem, heads[b], graph[b], self, at);
      RepStep(mem, FnWritten(mem, at, self, heads[b]), heads, graph, b, at, Entered(graph[b], self, at), WordsOf(at));
    }
  }

  lemma NewArcSound(h: Heap, mem: map<nat, nat>, heads: seq<u32>, graph: seq<seq<Fn>>, b: nat, call: Call)
    requires Sound(h, mem, heads, graph) && b < BUCKETS && HasFn(graph[b], call.self) && Served(h, ENTRY)
    ensures var at := Refill(h, ENTRY).slabPtr;
            var f := FindFn(graph[b], call.self);
            && f.at + 8 in mem && f.at + 8 !in WordsOf(at)
            && |graph| == BUCKETS
            && Sound(AllocSpec(h, ENTRY), ArcWritten(mem, at, call.from, f.at), heads,
                     graph[b := WithArcs(graph[b], call.self, [Arc(at, call.from, 1)] + f.arcs)])
  {
    hide HeapInv, Owned, AllocSpec, Refill, FnList, FnWords, Served, HasFn, FindFn, WithArcs, ArcWritten;
    var at := Refill(h, ENTRY).slabPtr;
    var f := FindFn(graph[b], call.self);
    AllocFresh(h, mem);
    AddArcList(mem, heads[b], graph[b], call, at);
    var fns := WithArcs(graph[b], call.self, [Arc(at, call.from, 1)] + f.arcs);
    RepStep(mem, ArcWritten(mem, at, call.from, f.at), heads, graph, b, heads[b], fns, WordsOf(at));
    assert heads[b := heads[b]] == heads;
  }

  lemma BumpSound(h: Heap, mem: map<nat, nat>, heads: seq<u32>, graph: seq<seq<Fn>>, b: nat, call: Call)
    requires Sound(h, mem, heads, graph) && b < BUCKETS && Listed(graph[b], call)
    ensures var f := FindFn(graph[b], call.self);
            var a := FindArc(f.arcs, call.from);
            && a.at + 8 in mem && mem[a.at + 8] == a.count
            && Sound(h, mem[a.at + 8 := (a.count + 1) % W32], heads,
                     graph[b := WithArcs(graph[b], call.self, Bump(f.arcs, call.from))])
  {
    hide HeapInv, FnList, FnWords, HasFn, FindFn, WithArcs, ArcList, ArcWords, Bump, HasArc, FindArc, Moved;
    var f := FindFn(graph[b], call.self);
    var a := FindArc(f.arcs, call.from);
    BumpBucket(mem, heads[b], graph[b], call);
    var mem' := mem[a.at + 8 := (a.count + 1) % W32];
    assert mem'.Keys == mem.Keys;
    RepStep(mem, mem', heads, graph, b, heads[b], WithArcs(graph[b], call.self, Bump(f.arcs, call.from)), {});
    assert heads[b := heads[b]] == heads;
  }

  /** A call keeps the blocks aligned, apart and inside the heap if and only if the memory it needs is there. */
  lemma CountKeepsIff(h: Heap, fns: seq<Fn>, call: Call)
    requires HeapInv(h)
    ensures HeapInv(CountSpec(h, fns, call).0) <==> Room(h, fns, call)
  {
    hide HeapInv, Served, AllocSpec, Refill, Counted, HasFn;
    if !Listed(fns, call) {
      AllocKeepsIff(h, ENTRY);
      if !HasFn(fns, call.self) {
        if Served(h, ENTRY) {
          AllocKeepsIff(AllocSpec(h, ENTRY), ENTRY);
        } else {
          RefillWord(h);
          RefusalStays(AllocSpec(h, ENTRY), ENTRY);
        }
      }
    }
  }
}
