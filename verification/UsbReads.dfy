/** What a control read returns, and that it undoes the cutting of the device's answer into packets. */
module UsbReads {
  import opened Words
  import opened UsbSpec
  import opened UsbTheorems

  /** Packets accepted from "from" on, the first and the last of which are not data. */
  lemma AcceptedBetween(d: Device, from: nat, mid: nat, end: nat, to: nat, first: seq<byte>, last: seq<byte>)
    requires from <= mid <= end <= to
    requires Accepted(d, from, mid) == [first] && Accepted(d, end, to) == [last]
    ensures var all := Accepted(d, from, to); |all| >= 2 && all[1..|all| - 1] == Accepted(d, mid, end)
  {
    hide Accepted;
    AcceptedSplit(d, from, mid, to);
    AcceptedSplit(d, mid, end, to);
  }

  /** The three steps of a control read: SETUP, data, handshake. */
  lemma ControlReadSteps(d: Device, l: Link, c: Control, maxpkt: byte)
    requires c.directionIn && c.hasData
    ensures var r, s := CtrlReq(d, l, c, maxpkt), Dispatch(d, l);
            var t := InTransfer(d, s.link, c.nbytes, maxpkt);
            var h := Dispatch(d, t.link);
            && (r.rcode == 0 <==> s.rcode == 0 && t.rcode == 0 && h.rcode == 0)
            && (r.rcode == 0 ==> r.data == t.data && r.acks == t.acks && r.link == h.link)
  {
    hide Dispatch, InFrom;
  }

  /** What a control read returns: if it succeeds, the packets the device was acknowledged for are the SETUP, the
      data and the handshake; the data in the caller's buffer is that of all packets in between, joined in order
      and as much as was asked for or a short packet ended; and the toggle saved for the endpoint is DATA1 flipped
      once for each of them. */
  lemma ControlReadReturns(d: Device, l: Link, c: Control, maxpkt: byte)
    requires c.directionIn && c.hasData && CtrlReq(d, l, c, maxpkt).rcode == 0
    ensures var r := CtrlReq(d, l, c, maxpkt);
            && l.pos <= r.link.pos
            && var all := Accepted(d, l.pos, r.link.pos);
            && |all| >= 3
            && Reassembled(all[1..|all| - 1], r.data, c.nbytes, maxpkt)
            && DataToggle(d, l, c.nbytes, maxpkt) == ((|all| - 2) % 2 == 0)
  {
    hide Dispatch, InTransfer, CtrlReq, Accepted, Reassembled;
    ControlReadSteps(d, l, c, maxpkt);
    var s := Dispatch(d, l);
    var t := InTransfer(d, s.link, c.nbytes, maxpkt);
    DispatchAccepts(d, l);
    InReassembles(d, s.link, c.nbytes, maxpkt);
    DispatchAccepts(d, t.link);
    AcceptedBetween(d, l.pos, s.link.pos, t.link.pos, Dispatch(d, t.link).link.pos,
                    At(d, s.link.pos - 1).payload, At(d, Dispatch(d, t.link).link.pos - 1).payload);
    SomeAreReassembled(Accepted(d, s.link.pos, t.link.pos), t.data, c.nbytes, maxpkt);
  }

  lemma SomeAreReassembled(packets: seq<seq<byte>>, data: seq<byte>, nbytes: u16, maxpkt: byte)
    requires Reassembled(packets, data, nbytes, maxpkt)
    ensures |packets| >= 1
  {
  }

  lemma {:induction false} InFromAcks(d: Device, l: Link, nbytes: u16, maxpkt: byte, got: Received)
    requires got.acks == |got.stages|
    ensures var r := InFrom(d, l, nbytes, maxpkt, got); r.rcode == 0 ==> r.acks == |r.stages|
    decreases if l.pos < |d| then |d| - l.pos else 0
  {
    hide Dispatch;
    var x := Dispatch(d, l);
    if x.rcode == 0 && At(d, x.link.pos - 1).available {
      var packet := At(d, x.link.pos - 1).payload;
      var all := Taken(got, packet, x.link);
      if !Ends(|packet|, |all.data|, nbytes, maxpkt) {
        InFromAcks(d, x.link, nbytes, maxpkt, all);
      }
    }
  }

  /** The toggle saved by any control read whose SETUP succeeded: if it came to the handshake, whether that
      succeeded or not, DATA1 flipped once for each IN stage; if an IN stage failed, DATA1, whatever had been
      received by then. */
  lemma ControlReadToggle(d: Device, l: Link, c: Control, maxpkt: byte)
    requires c.directionIn && c.hasData
    ensures var stages := CtrlReq(d, l, c, maxpkt).stages;
            && |stages| >= 1
            && (stages[0].rcode == 0 ==>
                  && |stages| >= 2
                  && DataToggle(d, l, c.nbytes, maxpkt)
                       == if stages[|stages| - 1].token == OUTHS then |stages| % 2 == 0 else true)
  {
    hide Dispatch, InFrom;
    var s := Dispatch(d, l);
    if s.rcode == 0 {
      var got := Received(0, [], 0, [], s.link);
      InFromStages(d, s.link, c.nbytes, maxpkt, got);
      InFromAcks(d, s.link, c.nbytes, maxpkt, got);
    }
  }

  // ---------------------------------------------------------------- reading what was sent

  /** The packets of an answer, as section 8.5.3.2 of the USB 2.0 specification has them: full ones, then one that is
      short, or empty, unless the answer is as long as was asked for. */
  function Packets(p: seq<byte>, maxpkt: byte, whole: bool): (ps: seq<Payload>)
    requires maxpkt >= 1
    ensures |ps| >= 1
    decreases |p|
  {
    if |p| < maxpkt || (|p| == maxpkt && whole) then [p] else [p[..maxpkt]] + Packets(p[maxpkt..], maxpkt, whole)
  }

  /** From "pos" on the device answers with these packets, each of them in time. */
  ghost predicate Delivers(d: Device, pos: nat, ps: seq<Payload>) {
    forall i :: 0 <= i < |ps| ==> Brings(d, pos + i, ps[i])
  }

  predicate Brings(d: Device, pos: nat, packet: Payload) {
    Acknowledges(d, pos) && At(d, pos).available && At(d, pos).payload == packet
  }

  /** The packet at "pos" is acknowledged in time. */
  predicate Acknowledges(d: Device, pos: nat) {
    At(d, pos).delay < 5000 && At(d, pos).result == hrSUCCESS
  }

  lemma DispatchTakes(d: Device, l: Link)
    requires Acknowledges(d, l.pos)
    ensures var x := Dispatch(d, l); x.rcode == 0 && x.link.pos == l.pos + 1
  {
  }

  lemma {:induction false} InFromCollects(d: Device, l: Link, nbytes: u16, maxpkt: byte, got: Received, p: seq<byte>)
    requires maxpkt >= 1 && |got.data| + |p| <= nbytes
    requires Delivers(d, l.pos, Packets(p, maxpkt, |got.data| + |p| == nbytes))
    ensures var r := InFrom(d, l, nbytes, maxpkt, got);
            var ps := Packets(p, maxpkt, |got.data| + |p| == nbytes);
            && r.rcode == 0 && r.data == got.data + p
            && r.acks == got.acks + |ps| && r.link.pos == l.pos + |ps|
    decreases |p|
  {
    hide Dispatch, InFrom, Delivers;
    var whole := |got.data| + |p| == nbytes;
    var ps := Packets(p, maxpkt, whole);
    DeliversNext(d, l.pos, ps);
    DispatchTakes(d, l);
    var x := Dispatch(d, l);
    OneTurn(d, l, nbytes, maxpkt, got);
    if |ps| > 1 {
      var rest := p[maxpkt..];
      assert p[..maxpkt] + rest == p && ps[1..] == Packets(rest, maxpkt, whole);
      var all := Taken(got, ps[0], x.link);
      InFromCollects(d, x.link, nbytes, maxpkt, all, rest);
      assert all.data + rest == got.data + p;
    }
  }

  lemma DeliversNext(d: Device, pos: nat, ps: seq<Payload>)
    requires Delivers(d, pos, ps) && ps != []
    ensures Brings(d, pos, ps[0]) && Delivers(d, pos + 1, ps[1..])
  {
    hide Brings;
    assert Brings(d, pos + 0, ps[0]);
    forall i | 0 <= i < |ps[1..]|
      ensures Brings(d, pos + 1 + i, ps[1..][i])
    {
      assert Brings(d, pos + (i + 1), ps[i + 1]);
    }
  }

  lemma OneTurn(d: Device, l: Link, nbytes: u16, maxpkt: byte, got: Received)
    requires var x := Dispatch(d, l); x.rcode == 0 && At(d, x.link.pos - 1).available
    ensures var x := Dispatch(d, l);
            var packet := At(d, x.link.pos - 1).payload;
            var all := Taken(got, packet, x.link);
            InFrom(d, l, nbytes, maxpkt, got)
              == if |packet| < maxpkt || |all.data| % W16 >= nbytes then all else InFrom(d, x.link, nbytes, maxpkt, all)
  {
    hide Dispatch;
  }

  /** The device answers a request for "nbytes" bytes with "p": it acknowledges the SETUP, sends "p" in packets of
      its size, and acknowledges the handshake. */
  ghost predicate Replies(d: Device, pos: nat, p: seq<byte>, nbytes: u16, maxpkt: byte)
    requires maxpkt >= 1
  {
    var ps := Packets(p, maxpkt, |p| == nbytes);
    |p| <= nbytes && Acknowledges(d, pos) && Delivers(d, pos + 1, ps) && Acknowledges(d, pos + 1 + |ps|)
  }

  /** Reading undoes sending: whatever the device answers, as long as it is no more than was asked for, the read
      succeeds and returns exactly that. */
  lemma ReadReturnsTheAnswer(d: Device, l: Link, nbytes: u16, maxpkt: byte, p: seq<byte>)
    requires maxpkt >= 1 && Replies(d, l.pos, p, nbytes, maxpkt)
    ensures var r := CtrlReq(d, l, Control(true, true, nbytes), maxpkt);
            var n := |Packets(p, maxpkt, |p| == nbytes)|;
            && r.rcode == 0 && r.data == p && r.link.pos == l.pos + n + 2
            && Dispatch(d, l).rcode == 0 && DataToggle(d, l, nbytes, maxpkt) == (n % 2 == 0)
  {
    hide Dispatch, InFrom, Packets, Delivers, CtrlReq;
    var s := Dispatch(d, l);
    DispatchTakes(d, l);
    InFromCollects(d, s.link, nbytes, maxpkt, Received(0, [], 0, [], s.link), p);
    var t := InTransfer(d, s.link, nbytes, maxpkt);
    DispatchTakes(d, t.link);
    ControlReadSteps(d, l, Control(true, true, nbytes), maxpkt);
  }
}
