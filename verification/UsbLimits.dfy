/** When an IN transfer must end, and when its data fits: the byte count is a 16-bit word and wraps. */
module UsbLimits {
  import opened Words
  import opened UsbSpec

  // ---------------------------------------------------------------- devices that keep sending

  /** The device that answers every packet at once with the next of these payloads. */
  function Stream(ps: seq<Payload>): Device {
    seq(|ps|, i requires 0 <= i < |ps| => Reply(0, hrSUCCESS, true, ps[i]))
  }

  /** The bytes of the first "i" payloads. */
  function Total(ps: seq<Payload>, i: nat): nat
    requires i <= |ps|
  {
    if i == 0 then 0 else Total(ps, i - 1) + |ps[i - 1]|
  }

  /** The loop's exit test after the first "i" packets. */
  predicate StopsAt(ps: seq<Payload>, i: nat, nbytes: u16, maxpkt: byte)
    requires 0 < i <= |ps|
  {
    Ends(|ps[i - 1]|, Total(ps, i), nbytes, maxpkt)
  }

  /** The transfer from this stream completes; otherwise it has taken every packet and still waits for more. */
  predicate Completes(ps: seq<Payload>, nbytes: u16, maxpkt: byte) {
    InTransfer(Stream(ps), Link(0, 0), nbytes, maxpkt).rcode == 0
  }

  lemma StreamDispatch(ps: seq<Payload>, k: nat)
    ensures Dispatch(Stream(ps), Link(0, k))
         == if k < |ps| then Dispatched(0, Link(0, k + 1)) else Dispatched(RCODE_TIMEOUT, Link(USB_XFER_TIMEOUT, k + 1))
  {
  }

  lemma {:induction false} StreamFrom(ps: seq<Payload>, k: nat, nbytes: u16, maxpkt: byte, got: Received)
    requires k <= |ps| && |got.data| == Total(ps, k)
    ensures var r := InFrom(Stream(ps), Link(0, k), nbytes, maxpkt, got);
            if r.rcode == 0
            then exists i :: k < i <= |ps| && StopsAt(ps, i, nbytes, maxpkt) && |r.data| == Total(ps, i)
            else |r.data| == Total(ps, |ps|) && forall i :: k < i <= |ps| ==> !StopsAt(ps, i, nbytes, maxpkt)
    decreases |ps| - k
  {
    hide Dispatch;
    StreamDispatch(ps, k);
    if k < |ps| {
      var all := Taken(got, ps[k], Link(0, k + 1));
      assert |all.data| == Total(ps, k + 1);
      if StopsAt(ps, k + 1, nbytes, maxpkt) {
        assert InFrom(Stream(ps), Link(0, k), nbytes, maxpkt, got) == all;
      } else {
        StreamFrom(ps, k + 1, nbytes, maxpkt, all);
      }
    }
  }

  /** A stream completes the transfer if and only if some packet of it passes the exit test. */
  lemma CompletesIff(ps: seq<Payload>, nbytes: u16, maxpkt: byte)
    ensures Completes(ps, nbytes, maxpkt) <==> exists i :: 0 < i <= |ps| && StopsAt(ps, i, nbytes, maxpkt)
  {
    StreamFrom(ps, 0, nbytes, maxpkt, Received(0, [], 0, [], Link(0, 0)));
  }

  /** Every stream of "n" packets completes the transfer. */
  ghost predicate AllComplete(n: nat, nbytes: u16, maxpkt: byte) {
    forall ps: seq<Payload> :: |ps| == n ==> Completes(ps, nbytes, maxpkt)
  }

  lemma {:induction false} NotStoppedGrows(ps: seq<Payload>, i: nat, nbytes: u16, maxpkt: byte)
    requires maxpkt >= 1 && nbytes + 255 <= W16 && i <= |ps|
    requires forall j :: 0 < j <= i ==> !StopsAt(ps, j, nbytes, maxpkt)
    ensures i <= Total(ps, i) && (i > 0 ==> Total(ps, i) < nbytes)
  {
    if i > 0 {
      NotStoppedGrows(ps, i - 1, nbytes, maxpkt);
      assert !StopsAt(ps, i, nbytes, maxpkt);
    }
  }

  lemma {:induction false} EqualPackets(ps: seq<Payload>, i: nat, m: nat)
    requires i <= |ps| && forall j :: 0 <= j < i ==> |ps[j]| == m
    ensures Total(ps, i) == i * m
  {
    if i > 0 {
      EqualPackets(ps, i - 1, m);
    }
  }

  /** The longest request whose count cannot jump over the end of the word: 65536 - 255. */
  const SAFE_BYTES := W16 - 255

  /** Packets that jump over the end of the count for ever: in turns of 258, three of 255 bytes, 254 of 254
      and one of 255, which bring the count to 65281 and then to 0 again. */
  function Turn(i: nat): Payload {
    seq(if i % 258 < 3 || i % 258 == 257 then 255 else 254, _ => 0)
  }

  function TurnCount(i: nat): nat {
    var j := i % 258;
    if j <= 3 then 255 * j else 254 * j + 3
  }

  lemma {:induction false} TurnTotal(ps: seq<Payload>, i: nat)
    requires i <= |ps| && forall j :: 0 <= j < i ==> ps[j] == Turn(j)
    ensures Total(ps, i) % W16 == TurnCount(i)
  {
    if i > 0 {
      TurnTotal(ps, i - 1);
      TurnNext(i - 1);
      ModAdd(Total(ps, i - 1), |ps[i - 1]|);
    }
  }

  lemma TurnNext(i: nat)
    ensures (TurnCount(i) + |Turn(i)|) % W16 == TurnCount(i + 1)
  {
    var j := i % 258;
    assert (i + 1) % 258 == if j == 257 then 0 else j + 1;
  }

  lemma ModAdd(a: nat, b: nat)
    ensures (a % W16 + b) % W16 == (a + b) % W16
  {
  }

  /** Whatever the device sends, a transfer from a device that keeps sending completes if and only if nothing is
      asked for, or the packet size is positive and the request at most 65281 bytes or the packet size 255:
      beyond that the 16-bit count can jump over the stretch where it would be enough. */
  lemma TransferEndsIff(nbytes: u16, maxpkt: byte)
    ensures (exists n: nat :: AllComplete(n, nbytes, maxpkt))
            <==> nbytes == 0 || (maxpkt >= 1 && (nbytes <= SAFE_BYTES || maxpkt == 255))
  {
    hide InTransfer;
    if nbytes == 0 || (maxpkt >= 1 && (nbytes <= SAFE_BYTES || maxpkt == 255)) {
      AlwaysEnds(nbytes, maxpkt);
    } else {
      forall n: nat
        ensures !AllComplete(n, nbytes, maxpkt)
      {
        var ps := Endless(n, nbytes, maxpkt);
      }
    }
  }

  lemma AlwaysEnds(nbytes: u16, maxpkt: byte)
    requires nbytes == 0 || (maxpkt >= 1 && (nbytes <= SAFE_BYTES || maxpkt == 255))
    ensures AllComplete(W16, nbytes, maxpkt)
  {
    forall ps: seq<Payload> | |ps| == W16
      ensures Completes(ps, nbytes, maxpkt)
    {
      CompletesIff(ps, nbytes, maxpkt);
      if nbytes == 0 {
        assert StopsAt(ps, 1, nbytes, maxpkt);
      } else if nbytes <= SAFE_BYTES {
        if forall i :: 0 < i <= |ps| ==> !StopsAt(ps, i, nbytes, maxpkt) {
          NotStoppedGrows(ps, W16, nbytes, maxpkt);
        }
      } else {
        FullPacketsEnd(ps, 257, nbytes, 255);
      }
    }
  }

  /** Packets of at most "m" bytes: by the n-th one the exit test has been passed if full packets are enough. */
  lemma FullPacketsEnd(ps: seq<Payload>, n: nat, nbytes: u16, m: byte)
    requires 0 < n <= |ps| && (forall i :: 0 <= i < n ==> |ps[i]| <= m) && n * m % W16 >= nbytes
    ensures exists i :: 0 < i <= n && StopsAt(ps, i, nbytes, m)
  {
    if (forall i :: 0 < i < n ==> !StopsAt(ps, i, nbytes, m)) && |ps[n - 1]| >= m {
      forall j | 0 <= j < n
        ensures |ps[j]| == m
      {
        assert j + 1 < n ==> !StopsAt(ps, j + 1, nbytes, m);
      }
      EqualPackets(ps, n, m);
    }
    assert (forall i :: 0 < i < n ==> !StopsAt(ps, i, nbytes, m)) ==> StopsAt(ps, n, nbytes, m);
  }

  /** A stream of any length that the transfer never gets enough of. */
  lemma Endless(n: nat, nbytes: u16, maxpkt: byte) returns (ps: seq<Payload>)
    requires nbytes > 0 && (maxpkt == 0 || (nbytes > SAFE_BYTES && maxpkt < 255))
    ensures |ps| == n && !Completes(ps, nbytes, maxpkt)
  {
    if maxpkt == 0 {
      ps := seq(n, _ => []);
      forall i | 0 < i <= |ps|
        ensures !StopsAt(ps, i, nbytes, maxpkt)
      {
        EqualPackets(ps, i, 0);
      }
    } else {
      ps := seq(n, i requires 0 <= i < n => Turn(i));
      forall i | 0 < i <= |ps|
        ensures !StopsAt(ps, i, nbytes, maxpkt)
      {
        TurnTotal(ps, i);
      }
    }
    CompletesIff(ps, nbytes, maxpkt);
  }

  // ---------------------------------------------------------------- devices that keep to the packet size

  /** The largest power of two that divides "m". */
  function LowBit(m: nat): (g: nat)
    requires m >= 1
    ensures 1 <= g <= m
  {
    if m % 2 == 1 then 1 else 2 * LowBit(m / 2)
  }

  /** Every stream of "n" packets, none longer than the packet size, completes the transfer. */
  ghost predicate ConformingComplete(n: nat, nbytes: u16, maxpkt: byte) {
    forall ps: seq<Payload> :: |ps| == n && (forall i :: 0 <= i < n ==> |ps[i]| <= maxpkt) ==>
      Completes(ps, nbytes, maxpkt)
  }

  function Double(j: nat): (p: nat)
    ensures p >= 1
  {
    if j == 0 then 1 else 2 * Double(j - 1)
  }

  /** Some multiple of "m" falls short of a multiple of 2^j by no more than the lowest bit of "m". */
  lemma {:induction false} MultipleBelow(m: nat, j: nat) returns (k: nat, t: nat)
    requires m >= 1
    ensures k * m + LowBit(m) == t * Double(j)
    decreases m, j
  {
    if j == 0 {
      k, t := 0, LowBit(m);
    } else if m % 2 == 0 {
      k, t := MultipleBelow(m / 2, j - 1);
      Doubled(k, m / 2, LowBit(m / 2), t, Double(j - 1));
    } else {
      k, t := MultipleBelow(m, j - 1);
      k, t := OneBitMore(m, k, t, Double(j - 1));
    }
  }

  lemma Doubled(k: nat, m: nat, g: nat, t: nat, p: nat)
    requires k * m + g == t * p
    ensures k * (2 * m) + 2 * g == t * (2 * p)
  {
    assert k * (2 * m) == 2 * (k * m) && t * (2 * p) == 2 * (t * p);
  }

  lemma OneBitMore(m: nat, k: nat, t: nat, p: nat) returns (k': nat, t': nat)
    requires m % 2 == 1 && k * m + 1 == t * p
    ensures k' * m + 1 == t' * (2 * p)
  {
    if t % 2 == 0 {
      k', t' := k, t / 2;
      assert t * p == (2 * t') * p;
    } else {
      k', t' := k + p, (t + m) / 2;
      assert t + m == 2 * t';
      assert k' * m == k * m + p * m;
      assert (t + m) * p == t * p + m * p;
    }
  }

  lemma {:induction false} LowBitDivides(m: nat, j: nat) returns (c: nat)
    requires 1 <= m < Double(j)
    ensures Double(j) == c * LowBit(m)
  {
    if m % 2 == 1 {
      c := Double(j);
    } else {
      c := LowBitDivides(m / 2, j - 1);
      assert 2 * (c * LowBit(m / 2)) == c * (2 * LowBit(m / 2));
    }
  }

  /** The multiples of "m" are multiples of its lowest bit. */
  lemma {:induction false} LowBitFactor(m: nat) returns (o: nat)
    requires m >= 1
    ensures m == o * LowBit(m)
  {
    if m % 2 == 1 {
      o := m;
    } else {
      o := LowBitFactor(m / 2);
      assert 2 * (o * LowBit(m / 2)) == o * (2 * LowBit(m / 2));
    }
  }

  /** From a device that keeps to the packet size and keeps sending, a transfer completes if and only if nothing
      is asked for, or the packet size is positive and the request does not lie within its lowest bit of the end
      of the 16-bit count. */
  lemma ConformingEndsIff(nbytes: u16, maxpkt: byte)
    ensures (exists n: nat :: ConformingComplete(n, nbytes, maxpkt))
            <==> nbytes == 0 || (maxpkt >= 1 && nbytes + LowBit(maxpkt) <= W16)
  {
    hide InTransfer, LowBit;
    if nbytes == 0 {
      AlwaysEnds(nbytes, maxpkt);
      assert ConformingComplete(W16, nbytes, maxpkt);
    } else if maxpkt >= 1 && nbytes + LowBit(maxpkt) <= W16 {
      var n := ConformingEnds(nbytes, maxpkt);
    } else {
      forall n: nat
        ensures !ConformingComplete(n, nbytes, maxpkt)
      {
        var ps := FullPackets(n, maxpkt);
        FullPacketsEndless(ps, nbytes, maxpkt);
      }
    }
  }

  lemma DoubleWord()
    ensures Double(16) == W16 && Double(8) == 256
  {
  }

  lemma ConformingEnds(nbytes: u16, maxpkt: byte) returns (n: nat)
    requires nbytes > 0 && maxpkt >= 1 && nbytes + LowBit(maxpkt) <= W16
    ensures ConformingComplete(n, nbytes, maxpkt)
  {
    hide InTransfer, LowBit, Double;
    DoubleWord();
    var t;
    n, t := MultipleBelow(maxpkt, 16);
    ResidueBelow(n * maxpkt, LowBit(maxpkt), t);
    forall ps: seq<Payload> | |ps| == n && forall i :: 0 <= i < n ==> |ps[i]| <= maxpkt
      ensures Completes(ps, nbytes, maxpkt)
    {
      CompletesIff(ps, nbytes, maxpkt);
      FullPacketsEnd(ps, n, nbytes, maxpkt);
    }
  }

  lemma ResidueBelow(x: nat, g: nat, t: nat)
    requires x + g == t * W16 && 1 <= g < 256
    ensures x % W16 == W16 - g && x > 0
  {
    DivUnique(x, W16, t - 1, W16 - g);
  }

  lemma FullPackets(n: nat, m: byte) returns (ps: seq<Payload>)
    ensures |ps| == n && forall i :: 0 <= i < n ==> |ps[i]| == m
  {
    ps := seq(n, _ => seq(m, _ => 0));
  }

  lemma FullPacketsEndless(ps: seq<Payload>, nbytes: u16, maxpkt: byte)
    requires nbytes > 0 && (maxpkt == 0 || nbytes + LowBit(maxpkt) > W16)
    requires forall i :: 0 <= i < |ps| ==> |ps[i]| == maxpkt
    ensures !Completes(ps, nbytes, maxpkt)
  {
    hide InTransfer, LowBit;
    CompletesIff(ps, nbytes, maxpkt);
    forall i | 0 < i <= |ps|
      ensures !StopsAt(ps, i, nbytes, maxpkt)
    {
      EqualPackets(ps, i, maxpkt);
      if maxpkt > 0 {
        ResidueAtMost(i, maxpkt);
      }
    }
  }

  /** Multiples of "m" leave the largest residues short of the end of the word by its lowest bit. */
  lemma ResidueAtMost(i: nat, m: byte)
    requires m >= 1
    ensures i * m % W16 + LowBit(m) <= W16
  {
    hide LowBit, Double;
    DoubleWord();
    var c := LowBitDivides16(m);
    var o := LowBitFactor(m);
    var g := LowBit(m);
    var x, q := i * m % W16, i * m / W16;
    assert i * m == q * W16 + x;
    assert i * (o * g) == (i * o) * g && q * (c * g) == (q * c) * g;
    var z: int := i * o - q * c;
    assert x == z * g by { assert (i * o) * g - (q * c) * g == z * g; }
    assert z < c by {
      if z >= c {
        MulLe(c, z, g);
      }
    }
    MulLe(z + 1, c, g);
  }

  lemma LowBitDivides16(m: byte) returns (c: nat)
    requires m >= 1
    ensures W16 == c * LowBit(m)
  {
    hide LowBit, Double;
    DoubleWord();
    c := LowBitDivides(m, 16);
  }

  // ---------------------------------------------------------------- when the data fits

  /** A device that keeps to the packet size. */
  ghost predicate KeepsTo(d: Device, maxpkt: byte) {
    forall p :: 0 <= p < |d| ==> |d[p].payload| <= maxpkt
  }

  /** "nbytes" rounded up to whole packets. */
  function RoundUp(nbytes: u16, m: nat): (r: nat)
    requires m >= 1
    ensures r >= nbytes
  {
    QuotientFacts(nbytes, m);
    (nbytes + m - 1) / m * m
  }

  lemma QuotientFacts(n: nat, m: nat)
    requires m >= 1
    ensures var r := (n + m - 1) / m * m;
            n <= r < n + m && (n % m == 0 ==> r == n) && (r == n ==> n % m == 0)
  {
    var q := (n + m - 1) / m;
    assert n + m - 1 == q * m + (n + m - 1) % m;
    var k := n / m;
    assert n == k * m + n % m;
    if n % m == 0 {
      DivUnique(n + m - 1, m, k, m - 1);
    }
    if q * m == n {
      DivUnique(n, m, q, 0);
    }
  }

  /** Whole packets below "nbytes" leave room for one more up to its rounding. */
  lemma NextPacket(i: nat, nbytes: u16, m: nat)
    requires m >= 1 && i * m < nbytes
    ensures (i + 1) * m <= RoundUp(nbytes, m)
  {
    var q := (nbytes + m - 1) / m;
    QuotientFacts(nbytes, m);
    assert i < q;
    MulLe(i + 1, q, m);
  }

  lemma {:induction false} InFromRounds(d: Device, l: Link, nbytes: u16, maxpkt: byte, got: Received, i: nat)
    requires KeepsTo(d, maxpkt) && maxpkt >= 1 && RoundUp(nbytes, maxpkt) < W16
    requires |got.data| == i * maxpkt < nbytes
    ensures |InFrom(d, l, nbytes, maxpkt, got).data| <= RoundUp(nbytes, maxpkt)
    decreases if l.pos < |d| then |d| - l.pos else 0
  {
    hide Dispatch, RoundUp;
    RoundUpFacts(nbytes, maxpkt);
    var x := Dispatch(d, l);
    if x.rcode == 0 && At(d, x.link.pos - 1).available {
      var packet := At(d, x.link.pos - 1).payload;
      var all := Taken(got, packet, x.link);
      NextPacket(i, nbytes, maxpkt);
      assert |packet| <= maxpkt;
      assert (i + 1) * maxpkt == i * maxpkt + maxpkt;
      if !Ends(|packet|, |all.data|, nbytes, maxpkt) {
        InFromRounds(d, x.link, nbytes, maxpkt, all, i + 1);
      }
    }
  }

  lemma RoundUpFacts(n: u16, m: nat)
    requires m >= 1
    ensures n <= RoundUp(n, m) < n + m && (RoundUp(n, m) == n <==> n % m == 0)
  {
    QuotientFacts(n, m);
  }

  lemma {:induction false} InFromEmpty(d: Device, l: Link, nbytes: u16, got: Received)
    requires KeepsTo(d, 0) && got.data == []
    ensures InFrom(d, l, nbytes, 0, got).data == []
    decreases if l.pos < |d| then |d| - l.pos else 0
  {
    hide Dispatch;
    var x := Dispatch(d, l);
    if x.rcode == 0 && At(d, x.link.pos - 1).available {
      var all := Taken(got, At(d, x.link.pos - 1).payload, x.link);
      if !Ends(0, |all.data|, nbytes, 0) {
        InFromEmpty(d, x.link, nbytes, all);
      }
    }
  }

  /** Full packets that do not pass the exit test before the k-th: at least "k" of them are taken. */
  lemma FullStream(ps: seq<Payload>, k: nat, nbytes: u16, m: byte)
    requires 0 < k <= |ps| && (forall i :: 0 <= i < |ps| ==> |ps[i]| == m)
    requires forall i {:trigger i * m} :: 0 < i < k ==> i * m % W16 < nbytes
    ensures KeepsTo(Stream(ps), m) && |InTransfer(Stream(ps), Link(0, 0), nbytes, m).data| >= k * m
  {
    hide InFrom;
    StreamFrom(ps, 0, nbytes, m, Received(0, [], 0, [], Link(0, 0)));
    var r := InTransfer(Stream(ps), Link(0, 0), nbytes, m);
    if r.rcode == 0 {
      var i :| 0 < i <= |ps| && StopsAt(ps, i, nbytes, m) && |r.data| == Total(ps, i);
      EqualPackets(ps, i, m);
      assert i >= k;
      MulLe(k, i, m);
    } else {
      EqualPackets(ps, |ps|, m);
      MulLe(k, |ps|, m);
    }
  }

  /** Every transfer from a device that keeps to the packet size stays within "bound" bytes. */
  ghost predicate StaysWithin(nbytes: u16, maxpkt: byte, bound: nat) {
    forall d, l :: KeepsTo(d, maxpkt) ==> |InTransfer(d, l, nbytes, maxpkt).data| <= bound
  }

  lemma RoundedBound(nbytes: u16, maxpkt: byte)
    requires maxpkt == 0 || (nbytes > 0 && RoundUp(nbytes, maxpkt) < W16)
    ensures StaysWithin(nbytes, maxpkt, if maxpkt == 0 then 0 else RoundUp(nbytes, maxpkt))
  {
    hide InFrom, RoundUp;
    forall d, l | KeepsTo(d, maxpkt)
      ensures |InTransfer(d, l, nbytes, maxpkt).data| <= if maxpkt == 0 then 0 else RoundUp(nbytes, maxpkt)
    {
      var none := Received(0, [], 0, [], l);
      if maxpkt == 0 {
        InFromEmpty(d, l, nbytes, none);
      } else {
        InFromRounds(d, l, nbytes, maxpkt, none, 0);
      }
    }
  }

  lemma NotEnoughYet(i: nat, q: nat, nbytes: u16, m: byte)
    requires 0 < i <= q && m >= 1 && q * m < nbytes + m && (i == q ==> q * m >= W16)
    ensures i * m % W16 < nbytes
  {
    if i < q {
      MulLe(i + 1, q, m);
      DivUnique(i * m, W16, 0, i * m);
    } else {
      DivUnique(i * m, W16, 1, i * m - W16);
    }
  }

  /** As many full packets as it takes to reach the request: the data is at least the request rounded up. */
  lemma RoundedReached(nbytes: u16, maxpkt: byte) returns (d: Device)
    requires maxpkt >= 1 && nbytes > 0
    ensures KeepsTo(d, maxpkt)
    ensures var n := |InTransfer(d, Link(0, 0), nbytes, maxpkt).data|;
            n >= RoundUp(nbytes, maxpkt) && (RoundUp(nbytes, maxpkt) >= W16 ==> n >= nbytes + maxpkt)
  {
    hide InTransfer, KeepsTo, Stream;
    var m: nat := maxpkt;
    var q := (nbytes + m - 1) / m;
    QuotientFacts(nbytes, m);
    var k := if q * m >= W16 then q + 1 else q;
    var ps := FullPackets(k, maxpkt);
    forall i {:trigger i * m} | 0 < i < k
      ensures i * m % W16 < nbytes
    {
      NotEnoughYet(i, q, nbytes, maxpkt);
    }
    FullStream(ps, k, nbytes, maxpkt);
    d := Stream(ps);
  }

  /** The data of every device that keeps to the packet size fits the request if and only if the packet size is 0,
      or something is asked for and the packet size divides it: a poll of 8 bytes, in particular, if and only if
      the packet size is 0, 1, 2, 4 or 8. */
  lemma DataFitsIff(nbytes: u16, maxpkt: byte)
    ensures StaysWithin(nbytes, maxpkt, nbytes) <==> maxpkt == 0 || (nbytes > 0 && nbytes % maxpkt == 0)
  {
    hide InTransfer, RoundUp, KeepsTo;
    if maxpkt == 0 {
      RoundedBound(nbytes, maxpkt);
    } else if nbytes == 0 {
      var d := FirstPacketTaken(maxpkt);
      assert |InTransfer(d, Link(0, 0), nbytes, maxpkt).data| > nbytes;
    } else {
      RoundUpFacts(nbytes, maxpkt);
      if nbytes % maxpkt == 0 {
        RoundedBound(nbytes, maxpkt);
      } else {
        var d := RoundedReached(nbytes, maxpkt);
        assert |InTransfer(d, Link(0, 0), nbytes, maxpkt).data| > nbytes;
      }
    }
  }

  lemma FirstPacketTaken(maxpkt: byte) returns (d: Device)
    ensures KeepsTo(d, maxpkt) && |InTransfer(d, Link(0, 0), 0, maxpkt).data| >= maxpkt
  {
    var ps := FullPackets(1, maxpkt);
    FullStream(ps, 1, 0, maxpkt);
    d := Stream(ps);
  }

  /** The data of every device that keeps to the packet size stays less than one packet over the request if and
      only if something is asked for and the 16-bit count does not wrap before it is enough. */
  lemma DataBoundIff(nbytes: u16, maxpkt: byte)
    ensures nbytes + maxpkt > 0 ==>
              (StaysWithin(nbytes, maxpkt, nbytes + maxpkt - 1)
               <==> nbytes > 0 && (maxpkt == 0 || RoundUp(nbytes, maxpkt) < W16))
  {
    hide InTransfer, RoundUp, KeepsTo;
    if maxpkt == 0 {
      RoundedBound(nbytes, maxpkt);
    } else if nbytes == 0 {
      var d := FirstPacketTaken(maxpkt);
      assert |InTransfer(d, Link(0, 0), nbytes, maxpkt).data| > nbytes + maxpkt - 1;
    } else {
      RoundUpFacts(nbytes, maxpkt);
      if RoundUp(nbytes, maxpkt) < W16 {
        RoundedBound(nbytes, maxpkt);
      } else {
        var d := RoundedReached(nbytes, maxpkt);
        assert |InTransfer(d, Link(0, 0), nbytes, maxpkt).data| > nbytes + maxpkt - 1;
      }
    }
  }
}
