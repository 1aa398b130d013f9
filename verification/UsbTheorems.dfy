/** What the transfer layer guarantees against every device. */
module UsbTheorems {
  import opened Words
  import opened UsbSpec

  // ---------------------------------------------------------------- bounded retry

  /** How many of the replies from "from" up to "to" carry the result code. */
  function Count(d: Device, from: nat, to: nat, code: byte): nat
    requires from <= to
    decreases (to as int) - (from as int)
  {
    if from == to then 0 else (if At(d, from).result == code then 1 else 0) + Count(d, from + 1, to, code)
  }

  /** No reply from "from" up to "to" ends a dispatch by itself. */
  ghost predicate OnlyRetries(d: Device, from: nat, to: nat) {
    forall p :: from <= p < to ==> At(d, p).result == hrNAK || At(d, p).result == hrTIMEOUT
  }

  lemma {:induction false} DispatchFromCounts(d: Device, l: Link, deadline: nat, naks: nat, retries: nat)
    requires naks < USB_NAK_LIMIT && retries < USB_RETRY_LIMIT
    ensures var x := DispatchFrom(d, l, deadline, naks, retries);
            var last := x.link.pos - 1;
            && OnlyRetries(d, l.pos, last)
            && naks + Count(d, l.pos, last, hrNAK) < USB_NAK_LIMIT
            && retries + Count(d, l.pos, last, hrTIMEOUT) < USB_RETRY_LIMIT
            && (x.rcode == RCODE_TIMEOUT || x.rcode == At(d, last).result)
            && (x.rcode == hrNAK ==> naks + Count(d, l.pos, last, hrNAK) == USB_NAK_LIMIT - 1)
            && (x.rcode == hrTIMEOUT ==> retries + Count(d, l.pos, last, hrTIMEOUT) == USB_RETRY_LIMIT - 1)
    decreases USB_NAK_LIMIT - naks + USB_RETRY_LIMIT - retries
  {
    hide DispatchFrom, Answered;
    DispatchTurn(d, l, deadline, naks, retries);
    if Answered(d, l, deadline) {
      var result, next := At(d, l.pos).result, AfterReply(d, l);
      if result == hrNAK && naks + 1 < USB_NAK_LIMIT {
        DispatchFromCounts(d, next, deadline, naks + 1, retries);
      } else if result == hrTIMEOUT && retries + 1 < USB_RETRY_LIMIT {
        DispatchFromCounts(d, next, deadline, naks, retries + 1);
      }
    }
  }

  lemma {:induction false} CountLast(d: Device, from: nat, to: nat, code: byte)
    requires from < to
    ensures Count(d, from, to, code) == Count(d, from, to - 1, code) + (if At(d, to - 1).result == code then 1 else 0)
    decreases (to as int) - (from as int)
  {
    if from + 1 < to {
      CountLast(d, from + 1, to, code);
    }
  }

  /** The time the device took for the packets from "from" up to "to". */
  function Delays(d: Device, from: nat, to: nat): nat
    requires from <= to
    decreases (to as int) - (from as int)
  {
    if from == to then 0 else At(d, from).delay + Delays(d, from + 1, to)
  }

  lemma {:induction false} DispatchFromTimes(d: Device, l: Link, deadline: nat, naks: nat, retries: nat)
    requires naks < USB_NAK_LIMIT && retries < USB_RETRY_LIMIT && l.clock < deadline
    ensures var x := DispatchFrom(d, l, deadline, naks, retries);
            var done := l.clock + Delays(d, l.pos, x.link.pos);
            && (x.rcode == RCODE_TIMEOUT <==> done >= deadline)
            && x.link.clock == if done >= deadline then deadline else done
    decreases USB_NAK_LIMIT - naks + USB_RETRY_LIMIT - retries
  {
    hide DispatchFrom;
    DispatchTurn(d, l, deadline, naks, retries);
    if Answered(d, l, deadline) {
      var result, next := At(d, l.pos).result, AfterReply(d, l);
      if result == hrNAK && naks + 1 < USB_NAK_LIMIT {
        DispatchFromTimes(d, next, deadline, naks + 1, retries);
      } else if result == hrTIMEOUT && retries + 1 < USB_RETRY_LIMIT {
        DispatchFromTimes(d, next, deadline, naks, retries + 1);
      }
    }
  }

  /** A dispatch launches at most 202 packets. It reports the software timeout exactly when the device took 5000
      ms or more for them all together, and it lasts as long as the device took, at most 5000 ms. Otherwise it
      reports NAK exactly when the device has answered NAK 200 times, and a bus timeout exactly when it has stayed
      silent on the bus 3 times; any other result is the device's answer to the last packet. All packets before
      the last were answered with NAK or a bus timeout, fewer than 200 and fewer than 3 times. */
  lemma DispatchBounded(d: Device, l: Link)
    ensures var x := Dispatch(d, l);
            && 1 <= x.link.pos - l.pos <= 202
            && (x.rcode == 0xFF <==> Delays(d, l.pos, x.link.pos) >= 5000)
            && x.link.clock == l.clock + (if x.rcode == 0xFF then 5000 else Delays(d, l.pos, x.link.pos))
            && OnlyRetries(d, l.pos, x.link.pos - 1)
            && Count(d, l.pos, x.link.pos - 1, hrNAK) < 200 && Count(d, l.pos, x.link.pos - 1, hrTIMEOUT) < 3
            && (x.rcode != 0xFF ==>
                  && x.rcode == At(d, x.link.pos - 1).result
                  && (x.rcode == hrNAK <==> Count(d, l.pos, x.link.pos, hrNAK) == 200)
                  && (x.rcode == hrTIMEOUT <==> Count(d, l.pos, x.link.pos, hrTIMEOUT) == 3))
  {
    hide DispatchFrom, Count, OnlyRetries, Delays;
    DispatchFromCounts(d, l, l.clock + USB_XFER_TIMEOUT, 0, 0);
    DispatchFromTimes(d, l, l.clock + USB_XFER_TIMEOUT, 0, 0);
    var x := Dispatch(d, l);
    CountLast(d, l.pos, x.link.pos, hrNAK);
    CountLast(d, l.pos, x.link.pos, hrTIMEOUT);
  }

  // ---------------------------------------------------------------- IN reassembly

  /** The transfer's data is the accepted packets joined in order. */
  function Join(packets: seq<seq<byte>>): seq<byte> {
    if packets == [] then [] else Join(packets[..|packets| - 1]) + packets[|packets| - 1]
  }

  /** Every packet but the last is at least full; the transfer stopped at the last because it was short or
      because enough had come, as far as the 16-bit count can tell, and not before. */
  ghost predicate Reassembled(packets: seq<seq<byte>>, data: seq<byte>, nbytes: u16, maxpkt: byte) {
    && |packets| >= 1
    && data == Join(packets)
    && (forall i :: 0 <= i < |packets| - 1 ==> |packets[i]| >= maxpkt)
    && (forall i :: 0 < i < |packets| ==> |Join(packets[..i])| % W16 < nbytes)
    && (|packets[|packets| - 1]| < maxpkt || |data| % W16 >= nbytes)
  }

  /** The payloads of the packets the host accepted among those launched from "from" up to "to", in order. */
  function Accepted(d: Device, from: nat, to: nat): seq<seq<byte>>
    requires from <= to
    decreases (to as int) - (from as int)
  {
    if from == to then []
    else Accepted(d, from, to - 1) + (if At(d, to - 1).result == hrSUCCESS then [At(d, to - 1).payload] else [])
  }

  lemma {:induction false} AcceptedSplit(d: Device, from: nat, mid: nat, to: nat)
    requires from <= mid <= to
    ensures Accepted(d, from, to) == Accepted(d, from, mid) + Accepted(d, mid, to)
    decreases (to as int) - (mid as int)
  {
    if mid < to {
      AcceptedSplit(d, from, mid, to - 1);
    } else {
      assert Accepted(d, from, mid) + [] == Accepted(d, from, mid);
    }
  }

  lemma {:induction false} AcceptedNone(d: Device, from: nat, to: nat)
    requires from <= to && OnlyRetries(d, from, to)
    ensures Accepted(d, from, to) == []
    decreases (to as int) - (from as int)
  {
    if from < to {
      AcceptedNone(d, from, to - 1);
    }
  }

  /** A dispatch accepts the last packet if it succeeds, and none before it. */
  lemma DispatchAccepts(d: Device, l: Link)
    ensures var x := Dispatch(d, l);
            && Accepted(d, l.pos, x.link.pos - 1) == []
            && (x.rcode == 0 ==> Accepted(d, l.pos, x.link.pos) == [At(d, x.link.pos - 1).payload])
  {
    DispatchBounded(d, l);
    AcceptedNone(d, l.pos, Dispatch(d, l).link.pos - 1);
  }

  /** "packets" is a transfer still under way: all packets full, never enough yet. */
  ghost predicate UnderWay(packets: seq<seq<byte>>, data: seq<byte>, nbytes: u16, maxpkt: byte) {
    && data == Join(packets)
    && (forall i :: 0 <= i < |packets| ==> |packets[i]| >= maxpkt)
    && (forall i :: 0 < i <= |packets| ==> |Join(packets[..i])| % W16 < nbytes)
  }

  lemma OnePacketMore(packets: seq<seq<byte>>, data: seq<byte>, packet: seq<byte>, nbytes: u16, maxpkt: byte)
    requires UnderWay(packets, data, nbytes, maxpkt)
    ensures var all, more := data + packet, packets + [packet];
            && all == Join(more)
            && (if Ends(|packet|, |all|, nbytes, maxpkt) then Reassembled(more, all, nbytes, maxpkt)
                else UnderWay(more, all, nbytes, maxpkt))
  {
    var more := packets + [packet];
    assert more[..|packets|] == packets && more[..|more|] == more;
    assert forall i :: 0 < i <= |packets| ==> more[..i] == packets[..i];
  }

  lemma {:induction false} InFromReassembles(d: Device, from: nat, l: Link, nbytes: u16, maxpkt: byte, got: Received)
    requires from <= l.pos
    requires UnderWay(Accepted(d, from, l.pos), got.data, nbytes, maxpkt) && got.acks == |Accepted(d, from, l.pos)|
    ensures var r := InFrom(d, l, nbytes, maxpkt, got);
            && r.link.pos > l.pos
            && (r.rcode == 0 ==>
                  && Reassembled(Accepted(d, from, r.link.pos), r.data, nbytes, maxpkt)
                  && r.acks == |Accepted(d, from, r.link.pos)|)
    decreases if l.pos < |d| then |d| - l.pos else 0
  {
    hide Dispatch, UnderWay, Reassembled, Accepted;
    var x := Dispatch(d, l);
    if x.rcode == 0 && At(d, x.link.pos - 1).available {
      var packet := At(d, x.link.pos - 1).payload;
      DispatchAccepts(d, l);
      AcceptedSplit(d, from, l.pos, x.link.pos);
      OnePacketMore(Accepted(d, from, l.pos), got.data, packet, nbytes, maxpkt);
      var all := Taken(got, packet, x.link);
      if !Ends(|packet|, |all.data|, nbytes, maxpkt) {
        InFromReassembles(d, from, x.link, nbytes, maxpkt, all);
      }
    }
  }

  /** IN reassembly: a transfer that reports success holds exactly the payloads the device was acknowledged
      for, joined in order, and it stopped at the first packet that was short or completed the request. */
  lemma InReassembles(d: Device, l: Link, nbytes: u16, maxpkt: byte)
    ensures var r := InTransfer(d, l, nbytes, maxpkt);
            r.rcode == 0 ==>
              && l.pos < r.link.pos
              && Reassembled(Accepted(d, l.pos, r.link.pos), r.data, nbytes, maxpkt)
              && r.acks == |Accepted(d, l.pos, r.link.pos)|
  {
    InFromReassembles(d, l.pos, l, nbytes, maxpkt, Received(0, [], 0, [], l));
  }

  /** Every packet accepted among those launched from "from" up to "to" came with data. */
  ghost predicate AllAvailable(d: Device, from: nat, to: nat) {
    forall p :: from <= p < to && At(d, p).result == hrSUCCESS ==> At(d, p).available
  }

  /** How a transfer that began with "from" stands: "data" is what was accepted before the packet "to". */
  ghost predicate Gathered(d: Device, from: nat, to: nat, data: seq<byte>, acks: int)
    requires from <= to
  {
    data == Join(Accepted(d, from, to)) && acks == |Accepted(d, from, to)| && AllAvailable(d, from, to)
  }

  lemma GatheredNext(d: Device, from: nat, l: Link, data: seq<byte>, acks: int)
    requires from <= l.pos && Gathered(d, from, l.pos, data, acks)
    ensures var x := Dispatch(d, l);
            var last := x.link.pos - 1;
            && Gathered(d, from, last, data, acks)
            && (x.rcode == 0 && At(d, last).available ==>
                  Gathered(d, from, x.link.pos, data + At(d, last).payload, acks + 1))
  {
    hide Dispatch;
    DispatchAccepts(d, l);
    DispatchBounded(d, l);
    var x := Dispatch(d, l);
    AcceptedSplit(d, from, l.pos, x.link.pos - 1);
    AcceptedSplit(d, from, l.pos, x.link.pos);
    assert Accepted(d, from, l.pos) + [] == Accepted(d, from, l.pos);
    var more := Accepted(d, from, l.pos) + [At(d, x.link.pos - 1).payload];
    assert more[..|more| - 1] == Accepted(d, from, l.pos);
  }

  lemma {:induction false} InFromOutcome(d: Device, from: nat, l: Link, nbytes: u16, maxpkt: byte, got: Received)
    requires from <= l.pos && Gathered(d, from, l.pos, got.data, got.acks)
    ensures var r := InFrom(d, l, nbytes, maxpkt, got);
            var last := r.link.pos - 1;
            && l.pos <= last
            && (r.rcode == 0 ==> Gathered(d, from, r.link.pos, r.data, r.acks))
            && (r.rcode == RCODE_NO_DATA ==>
                  && At(d, last).result == hrSUCCESS && !At(d, last).available
                  && Gathered(d, from, last, r.data, r.acks - 1))
            && (r.rcode != 0 && r.rcode != RCODE_NO_DATA ==>
                  && (r.rcode == RCODE_TIMEOUT || r.rcode == At(d, last).result)
                  && Gathered(d, from, last, r.data, r.acks))
    decreases if l.pos < |d| then |d| - l.pos else 0
  {
    hide Dispatch, Gathered;
    var x := Dispatch(d, l);
    GatheredNext(d, from, l, got.data, got.acks);
    DispatchBounded(d, l);
    if x.rcode == 0 && At(d, x.link.pos - 1).available {
      var packet := At(d, x.link.pos - 1).payload;
      var all := Taken(got, packet, x.link);
      if !Ends(|packet|, |all.data|, nbytes, maxpkt) {
        InFromOutcome(d, from, x.link, nbytes, maxpkt, all);
      }
    }
  }

  /** Whatever a transfer ends in: the data is that of the packets accepted with data, joined in order, and nothing
      else. A failure is what the last packet ended in, or 0xF0 when that one was accepted without data; then the
      host has acknowledged one packet more than it has data of. */
  lemma InOutcome(d: Device, l: Link, nbytes: u16, maxpkt: byte)
    ensures var r := InTransfer(d, l, nbytes, maxpkt);
            && l.pos < r.link.pos
            && var packets := Accepted(d, l.pos, if r.rcode == 0 then r.link.pos else r.link.pos - 1);
            && r.data == Join(packets)
            && r.acks == |packets| + (if r.rcode == 0xF0 then 1 else 0)
            && AllAvailable(d, l.pos, if r.rcode == 0 then r.link.pos else r.link.pos - 1)
            && var last := At(d, r.link.pos - 1);
            if r.rcode == 0xF0 then last.result == 0 && !last.available
            else r.rcode == 0 || r.rcode == 0xFF || r.rcode == last.result
  {
    hide InFrom, Accepted;
    assert Accepted(d, l.pos, l.pos) == [] by {
      AcceptedNone(d, l.pos, l.pos);
    }
    InFromOutcome(d, l.pos, l, nbytes, maxpkt, Received(0, [], 0, [], l));
  }

  // ---------------------------------------------------------------- control transfers

  /** Every stage but the last succeeded: nothing is launched after a failed stage. */
  ghost predicate NoStageAfterFailure(stages: seq<Stage>) {
    forall i :: 0 <= i < |stages| - 1 ==> stages[i].rcode == 0
  }

  /** One or more successful IN stages. */
  ghost predicate DataStages(stages: seq<Stage>) {
    stages != [] && forall i :: 0 <= i < |stages| ==> stages[i] == Stage(IN, 0)
  }

  lemma {:induction false} InFromStages(d: Device, l: Link, nbytes: u16, maxpkt: byte, got: Received)
    requires forall i :: 0 <= i < |got.stages| ==> got.stages[i] == Stage(IN, 0)
    ensures var r := InFrom(d, l, nbytes, maxpkt, got);
            && r.stages != []
            && (forall i :: 0 <= i < |r.stages| - 1 ==> r.stages[i] == Stage(IN, 0))
            && r.stages[|r.stages| - 1] == Stage(IN, r.rcode)
    decreases if l.pos < |d| then |d| - l.pos else 0
  {
    hide Dispatch;
    var x := Dispatch(d, l);
    if x.rcode == 0 && At(d, x.link.pos - 1).available {
      var packet := At(d, x.link.pos - 1).payload;
      var all := Taken(got, packet, x.link);
      if !Ends(|packet|, |all.data|, nbytes, maxpkt) {
        InFromStages(d, x.link, nbytes, maxpkt, all);
      }
    }
  }

  /** The stages a request goes through when all goes well. */
  ghost predicate CompleteStages(c: Control, stages: seq<Stage>) {
    && |stages| >= 2 && stages[0] == Stage(SETUP, 0)
    && if c.hasData then c.directionIn && DataStages(stages[1..|stages| - 1]) && stages[|stages| - 1] == Stage(OUTHS, 0)
       else |stages| == 2 && stages[1] == Stage(if c.directionIn then OUTHS else INHS, 0)
  }

  /** Staging: a request succeeds exactly when it went through all its stages, SETUP first, then the IN data
      stages if there are any, then one handshake, each of them successful; a request that fails launches
      nothing after the stage that failed. */
  lemma ControlStaging(d: Device, l: Link, c: Control, maxpkt: byte)
    ensures var r := CtrlReq(d, l, c, maxpkt);
            && NoStageAfterFailure(r.stages)
            && (r.rcode == 0 <==> CompleteStages(c, r.stages))
            && (if c.hasData && !c.directionIn && r.stages == [Stage(SETUP, 0)] then r.rcode == 0xFF
                else r.stages != [] && r.rcode == r.stages[|r.stages| - 1].rcode)
            && (!c.hasData ==> r.data == [])
  {
    hide Dispatch, InFrom;
    var s := Dispatch(d, l);
    if s.rcode == 0 && c.hasData && c.directionIn {
      InFromStages(d, s.link, c.nbytes, maxpkt, Received(0, [], 0, [], s.link));
      var t := InTransfer(d, s.link, c.nbytes, maxpkt);
      var setup := Stage(SETUP, 0);
      var stages := [setup] + t.stages;
      assert forall i :: 1 <= i < |stages| ==> stages[i] == t.stages[i - 1];
      if t.rcode == 0 {
        var h := Dispatch(d, t.link);
        var all := stages + [Stage(OUTHS, h.rcode)];
        assert all[1..|all| - 1] == t.stages;
        assert all[|all| - 1] == Stage(OUTHS, h.rcode);
      } else {
        assert stages[|stages| - 1] == Stage(IN, t.rcode);
      }
    }
  }

  /** Section 8.5.3 of the USB 2.0 specification: the status stage runs opposite to the data stage, and is an
      IN when there is no data stage. */
  ghost predicate StatusConforms(stages: seq<Stage>) {
    |stages| >= 2 &&
    stages[|stages| - 1].token == if exists i :: 0 <= i < |stages| - 1 && stages[i].token == IN then OUTHS else INHS
  }

  /** A successful request ends in the handshake of section 8.5.3 if and only if it is not a read without a
      buffer: for that one the code sends an OUT handshake although no data stage came before it. */
  lemma StatusConformsIff(d: Device, l: Link, c: Control, maxpkt: byte)
    requires CtrlReq(d, l, c, maxpkt).rcode == 0
    ensures StatusConforms(CtrlReq(d, l, c, maxpkt).stages) <==> !c.directionIn || c.hasData
  {
    ControlStaging(d, l, c, maxpkt);
    hide CtrlReq;
    var stages := CtrlReq(d, l, c, maxpkt).stages;
    if c.hasData {
      assert stages[1] == stages[1..|stages| - 1][0];
    }
  }

  /** The failing family, on a device that answers both packets at once: a read without a buffer succeeds and
      ends in an OUT handshake. */
  lemma ReadWithoutBuffer(nbytes: u16, maxpkt: byte)
    ensures var d: Device := [Reply(0, hrSUCCESS, false, []), Reply(0, hrSUCCESS, false, [])];
            var r := CtrlReq(d, Link(0, 0), Control(true, false, nbytes), maxpkt);
            r.rcode == 0 && r.stages == [Stage(SETUP, 0), Stage(OUTHS, 0)] && !StatusConforms(r.stages)
  {
    var d: Device := [Reply(0, hrSUCCESS, false, []), Reply(0, hrSUCCESS, false, [])];
    assert Dispatch(d, Link(0, 0)) == Dispatched(0, Link(0, 1));
    assert Dispatch(d, Link(0, 1)) == Dispatched(0, Link(0, 2));
  }
}
