/** The transfer layer of the USB host stack as it runs: loops that launch packets, poll the chip and fill
    the caller's buffer. The chip and the device are an environment that answers each launched packet. */
module Usb {
  import opened Words
  import opened UsbSpec
  import UsbReads
  import UsbToggles

  /** A device table entry: its endpoint records and its class. */
  datatype DevRecord = DevRecord(epinfo: array?<EpRecord>, devclass: byte)

  class UsbHost {
    const device: Device
    const devtable: array<DevRecord>
    var hidAddr: nat             // hid_device.addr
    var clock: nat               // milliseconds
    var launched: nat            // packets launched so far
    var chipToggle: bool         // the receive toggle of the chip
    ghost var stages: seq<Stage> // the stages of the current transfer
    ghost var overrun: bool      // a caller's buffer was too small for what came

    constructor (device: Device, devtable: array<DevRecord>, hidAddr: nat)
      ensures this.device == device && this.devtable == devtable && this.hidAddr == hidAddr
      ensures clock == 0 && launched == 0 && stages == [] && !overrun
    {
      this.device, this.devtable, this.hidAddr := device, devtable, hidAddr;
      clock, launched, chipToggle := 0, 0, false;
      stages, overrun := [], false;
    }

    ghost function Position(): Link
      reads this
    {
      Link(clock, launched)
    }

    /** XferDispatchPkt. An accepted IN packet flips the chip's toggle. */
    method DispatchPkt(token: Token) returns (rcode: byte)
      modifies this`clock, this`launched, this`chipToggle
      ensures Dispatched(rcode, Position()) == Dispatch(device, old(Position()))
      ensures chipToggle == if token == IN && rcode == 0 then !old(chipToggle) else old(chipToggle)
    {
      hide Dispatch, DispatchFrom, Answered;
      DispatchIs(device, Position());
      var deadline := clock + USB_XFER_TIMEOUT;
      var retries, naks := 0, 0;
      while true
        invariant 0 <= naks < USB_NAK_LIMIT && 0 <= retries < USB_RETRY_LIMIT
        invariant chipToggle == old(chipToggle)
        invariant DispatchFrom(device, Position(), deadline, naks, retries) == Dispatch(device, old(Position()))
        decreases USB_NAK_LIMIT - naks + USB_RETRY_LIMIT - retries
      {
        DispatchTurn(device, Position(), deadline, naks, retries);
        var done := Launch(deadline);
        if !done {
          return RCODE_TIMEOUT;
        }
        rcode := At(device, launched - 1).result;
        if rcode == hrNAK {
          naks := naks + 1;
          if naks == USB_NAK_LIMIT {
            break;
          }
        } else if rcode == hrTIMEOUT {
          retries := retries + 1;
          if retries == USB_RETRY_LIMIT {
            break;
          }
        } else {
          break;
        }
      }
      if token == IN && rcode == hrSUCCESS {
        chipToggle := !chipToggle;
      }
    }

    /** Launches one packet and polls for the transfer-done interrupt until the deadline. */
    method Launch(deadline: nat) returns (done: bool)
      modifies this`clock, this`launched
      ensures done == Answered(device, old(Position()), deadline)
      ensures Position() == if done then AfterReply(device, old(Position()))
                            else Link(if old(clock) < deadline then deadline else old(clock), old(launched) + 1)
    {
      var doneAt := clock + At(device, launched).delay;
      launched := launched + 1;
      while clock < deadline
        invariant old(clock) <= clock <= doneAt || !Answered(device, old(Position()), deadline)
        invariant old(clock) <= clock && (old(clock) < deadline ==> clock <= deadline)
        invariant old(clock) >= deadline ==> clock == old(clock)
        invariant clock < deadline ==> clock <= doneAt
        invariant launched == old(launched) + 1
      {
        if clock >= doneAt {
          return true;
        }
        clock := clock + 1;
      }
      return false;
    }

    /** XferInTransfer: keeps sending INs to endpoint "ep" and stores the data from the start of "data" on;
        the toggle is loaded before the first packet and saved only when the transfer completes. The byte
        count is a 16-bit word and the packet size one byte. */
    method InTransfer(epinfo: array<EpRecord>, ep: nat, nbytes: u16, data: array<byte>, maxpktsize: byte)
      returns (rcode: byte)
      requires ep < epinfo.Length
      modifies this`clock, this`launched, this`chipToggle, this`stages, this`overrun, epinfo, data
      ensures var r := UsbSpec.InTransfer(device, old(Position()), nbytes, maxpktsize);
              && rcode == r.rcode && Position() == r.link && stages == old(stages) + r.stages
              && data[..] == Overlay(old(data[..]), r.data) && overrun == (old(overrun) || |r.data| > data.Length)
              && Holds(data[..], r.data, old(data[..]))
              && epinfo[..] == (if rcode == 0
                                then old(epinfo[..])[ep := old(epinfo[ep]).(
                                       rcvToggle := Flip(old(epinfo[ep].rcvToggle), r.acks))]
                                else old(epinfo[..]))
    {
      chipToggle := epinfo[ep].rcvToggle;
      ghost var r, whole := UsbSpec.InTransfer(device, Position(), nbytes, maxpktsize), data[..];
      rcode := ReceivePackets(nbytes, data, maxpktsize);
      OverlayHolds(whole, r.data);
      if rcode == 0 {
        epinfo[ep] := epinfo[ep].(rcvToggle := chipToggle);
      }
    }

    /** The loop of XferInTransfer: IN packets until one is short or enough has come. */
    method ReceivePackets(nbytes: u16, data: array<byte>, maxpktsize: byte) returns (rcode: byte)
      modifies this`clock, this`launched, this`chipToggle, this`stages, this`overrun, data
      ensures var r := UsbSpec.InTransfer(device, old(Position()), nbytes, maxpktsize);
              && rcode == r.rcode && Position() == r.link && stages == old(stages) + r.stages
              && data[..] == Overlay(old(data[..]), r.data) && overrun == (old(overrun) || |r.data| > data.Length)
              && (rcode == 0 ==> chipToggle == Flip(old(chipToggle), r.acks))
    {
      hide Dispatch, InFrom, Overlay;
      var xfrlen: u16, put := 0, 0;
      ghost var got := Received(0, [], 0, [], Position());
      ghost var before, whole := stages, data[..];
      OverlayNothing(whole);
      while true
        invariant put == |got.data| && xfrlen == put % W16 && got.link == Position()
        invariant InFrom(device, Position(), nbytes, maxpktsize, got)
               == UsbSpec.InTransfer(device, old(Position()), nbytes, maxpktsize)
        invariant data[..] == Overlay(whole, got.data) && overrun == (old(overrun) || put > data.Length)
        invariant stages == before + got.stages
        invariant chipToggle == Flip(old(chipToggle), got.acks)
        decreases if launched < |device| then |device| - launched else 0
      {
        var pktsize;
        rcode, pktsize, got := ReceiveOne(nbytes, data, maxpktsize, put, got, before, whole);
        if rcode != 0 {
          return rcode;
        }
        put := put + pktsize;
        xfrlen := (xfrlen + pktsize) % W16;
        if pktsize < maxpktsize || xfrlen >= nbytes {
          return 0;
        }
      }
    }

    /** One turn of the loop: launch an IN, check for data, store it behind what has come so far. */
    method ReceiveOne(nbytes: u16, data: array<byte>, maxpktsize: byte, put: nat,
                      ghost got: Received, ghost before: seq<Stage>, ghost whole: seq<byte>)
      returns (rcode: byte, pktsize: byte, ghost after: Received)
      requires put == |got.data| && got.link == Position()
      requires |whole| == data.Length && data[..] == Overlay(whole, got.data) && stages == before + got.stages
      modifies this`clock, this`launched, this`chipToggle, this`stages, this`overrun, data
      ensures after.link == Position() && stages == before + after.stages
      ensures data[..] == Overlay(whole, after.data)
      ensures overrun == (old(overrun) || (rcode == 0 && |after.data| > data.Length))
      ensures rcode != 0 ==> after == InFrom(device, old(Position()), nbytes, maxpktsize, got) && after.rcode == rcode
      ensures rcode != 0 ==> after.data == got.data
      ensures rcode == 0 ==>
                && after.rcode == 0 && |after.data| == put + pktsize
                && after.acks == got.acks + 1 && chipToggle == !old(chipToggle)
                && old(launched) < launched <= |device|
                && InFrom(device, old(Position()), nbytes, maxpktsize, got) ==
                     if Ends(pktsize, |after.data|, nbytes, maxpktsize) then after
                     else InFrom(device, Position(), nbytes, maxpktsize, after)
    {
      hide Dispatch, Overlay, InFrom;
      ghost var here := Position();
      pktsize := 0;
      InFromStops(device, here, nbytes, maxpktsize, got);
      rcode := DispatchPkt(IN);
      after := InFrom(device, here, nbytes, maxpktsize, got);
      if rcode != 0 {
        stages := stages + [Stage(IN, rcode)];
        return;
      }
      var reply := At(device, launched - 1);
      if !reply.available {
        stages := stages + [Stage(IN, RCODE_NO_DATA)];
        rcode := RCODE_NO_DATA;
        return;
      }
      pktsize := |reply.payload|;
      InFromNext(device, here, nbytes, maxpktsize, got);
      ReadFifo(reply.payload, data, put, whole, got.data);
      overrun := overrun || put + pktsize > data.Length;
      stages := stages + [Stage(IN, 0)];
      after := Taken(got, reply.payload, Position());
    }

    /** kbdPoll and mousePoll. */
    method PollReport(buf: array<byte>) returns (rcode: byte)
      requires hidAddr < devtable.Length && devtable[hidAddr].epinfo != null && devtable[hidAddr].epinfo.Length == 2
      modifies this`clock, this`launched, this`chipToggle, this`stages, this`overrun, devtable[hidAddr].epinfo, buf
      ensures var epinfo := devtable[hidAddr].epinfo;
              var r := UsbSpec.InTransfer(device, old(Position()), REPORT_BYTES, old(epinfo[1].maxPktSize) % 256);
              && rcode == r.rcode && Position() == r.link
              && buf[..] == Overlay(old(buf[..]), r.data) && overrun == (old(overrun) || |r.data| > buf.Length)
              && epinfo[0] == old(epinfo[0])
              && epinfo[1] == old(epinfo[1]).(rcvToggle := epinfo[1].rcvToggle)
      ensures Holds(buf[..], UsbSpec.InTransfer(device, old(Position()), 8,
                                                old(devtable[hidAddr].epinfo[1].maxPktSize) % 256).data, old(buf[..]))
      ensures var epinfo := devtable[hidAddr].epinfo;
              var t := UsbToggles.Toggles(false, old(epinfo[1].rcvToggle), false);
              var (l', t') := UsbToggles.PollStep(device, old(Position()), old(epinfo[1].maxPktSize) % 256, t);
              Position() == l' && epinfo[1].rcvToggle == t'.ep1
    {
      var epinfo := devtable[hidAddr].epinfo;
      rcode := InTransfer(epinfo, 1, REPORT_BYTES, buf, epinfo[1].maxPktSize % 256);
      assert forall i :: 0 <= i < 2 ==> epinfo[i] == epinfo[..][i];
    }

    /** XferCtrlReq with XferCtrlData and XferCtrlND; "data" is null for a request without a data stage. */
    method CtrlReq(addr: nat, ep: nat, directionIn: bool, nbytes: u16, data: array?<byte>) returns (rcode: byte)
      requires addr < devtable.Length
      requires data != null && directionIn ==> devtable[addr].epinfo != null && ep < devtable[addr].epinfo.Length
      modifies this`clock, this`launched, this`chipToggle, this`stages, this`overrun
      modifies if data == null then {} else {data}
      modifies if devtable[addr].epinfo == null then {} else {devtable[addr].epinfo}
      ensures var r := UsbSpec.CtrlReq(device, old(Position()), Control(directionIn, data != null, nbytes),
                                       old(PacketSize(addr, ep)));
              && rcode == r.rcode && Position() == r.link && stages == r.stages
              && (data != null ==> data[..] == Overlay(old(data[..]), r.data) && Holds(data[..], r.data, old(data[..])))
              && overrun == (old(overrun) || (data != null && |r.data| > data.Length))
      ensures devtable[addr].epinfo != null ==>
                var before := old(if devtable[addr].epinfo == null then [] else devtable[addr].epinfo[..]);
                var toggle := DataToggle(device, old(Position()), nbytes, old(PacketSize(addr, ep)));
                devtable[addr].epinfo[..] ==
                  if directionIn && data != null && Dispatch(device, old(Position())).rcode == 0
                  then before[ep := before[ep].(rcvToggle := toggle)]
                  else before
    {
      hide Dispatch, UsbSpec.InTransfer, Overlay;
      ghost var whole := if data == null then [] else data[..];
      OverlayNothing(whole);
      if data != null {
        ghost var r := UsbSpec.CtrlReq(device, Position(), Control(directionIn, true, nbytes), PacketSize(addr, ep));
        OverlayHolds(whole, r.data);
      }
      rcode := DispatchPkt(SETUP);
      stages := [Stage(SETUP, rcode)];
      if rcode != 0 {
        return rcode;
      }
      if data != null {
        if !directionIn {
          return RCODE_NOT_IMPLEMENTED;
        }
        var epinfo := devtable[addr].epinfo;
        epinfo[ep] := epinfo[ep].(rcvToggle := true);
        rcode := InTransfer(epinfo, ep, nbytes, data, epinfo[ep].maxPktSize % 256);
        if rcode != 0 {
          return rcode;
        }
        rcode := DispatchPkt(OUTHS);
        stages := stages + [Stage(OUTHS, rcode)];
      } else {
        var token := if directionIn then OUTHS else INHS;
        rcode := DispatchPkt(token);
        stages := stages + [Stage(token, rcode)];
      }
    }

    /** XferGetDevDescr, XferGetConfDescr and XferGetStrDescr: a device that answers the request with "p" is read
        back as "p", which then stands at the start of the buffer, all that fits of it. */
    method ReadDescriptor(addr: nat, ep: nat, nbytes: u16, data: array<byte>, ghost p: seq<byte>) returns (rcode: byte)
      requires addr < devtable.Length && devtable[addr].epinfo != null && ep < devtable[addr].epinfo.Length
      modifies this`clock, this`launched, this`chipToggle, this`stages, this`overrun, data, devtable[addr].epinfo
      ensures var maxpkt := old(devtable[addr].epinfo[ep].maxPktSize) % 256;
              maxpkt >= 1 && UsbReads.Replies(device, old(launched), p, nbytes, maxpkt) ==>
                && rcode == 0 && overrun == (old(overrun) || |p| > data.Length)
                && (forall j :: 0 <= j < |p| && j < data.Length ==> data[j] == p[j])
                && (forall j :: |p| <= j < data.Length ==> data[j] == old(data[j]))
                && devtable[addr].epinfo[ep].rcvToggle
                     == (|UsbReads.Packets(p, maxpkt, |p| == nbytes)| % 2 == 0)
    {
      hide UsbReads.Replies, UsbSpec.CtrlReq, Dispatch, Overlay, DataToggle, UsbReads.Packets;
      ghost var l, maxpkt := Position(), PacketSize(addr, ep);
      ghost var whole := data[..];
      rcode := CtrlReq(addr, ep, true, nbytes, data);
      if maxpkt >= 1 && UsbReads.Replies(device, l.pos, p, nbytes, maxpkt) {
        UsbReads.ReadReturnsTheAnswer(device, l, nbytes, maxpkt, p);
        assert Holds(data[..], p, whole);
        assert devtable[addr].epinfo[ep] == devtable[addr].epinfo[..][ep];
      }
    }

    /** The packet size a data stage works with: the low byte of the endpoint's. */
    ghost function PacketSize(addr: nat, ep: nat): byte
      requires addr < devtable.Length
      reads devtable, if devtable[addr].epinfo == null then {} else {devtable[addr].epinfo}
    {
      var epinfo := devtable[addr].epinfo;
      if epinfo == null || ep >= epinfo.Length then 0 else epinfo[ep].maxPktSize % 256
    }

    /** MAXbytes_rd from the receive FIFO to offset "put" of the buffer; what lies behind the buffer is not
        part of it. */
    static method ReadFifo(payload: Payload, data: array<byte>, put: nat, ghost whole: seq<byte>, ghost got: seq<byte>)
      requires put == |got| && |whole| == data.Length && data[..] == Overlay(whole, got)
      modifies data
      ensures data[..] == Overlay(whole, got + payload)
    {
      var i := 0;
      assert got + payload[..0] == got;
      while i < |payload|
        invariant 0 <= i <= |payload|
        invariant data[..] == Overlay(whole, got + payload[..i])
      {
        assert payload[..i + 1] == payload[..i] + [payload[i]];
        OverlayOne(whole, got + payload[..i], payload[i]);
        if put + i < data.Length {
          data[put + i] := payload[i];
        }
        i := i + 1;
        assert got + payload[..i] == (got + payload[..i - 1]) + [payload[i - 1]];
      }
      assert payload[..|payload|] == payload;
    }
  }

  /** The buffer, once "whole", holds "data" byte for byte from its start on, as far as it goes, and its old bytes
      behind that. */
  ghost predicate Holds(buf: seq<byte>, data: seq<byte>, whole: seq<byte>) {
    && |buf| == |whole|
    && (forall j :: 0 <= j < |data| && j < |whole| ==> buf[j] == data[j])
    && (forall j :: |data| <= j < |whole| ==> buf[j] == whole[j])
  }

  lemma OverlayHolds(whole: seq<byte>, data: seq<byte>)
    ensures Holds(Overlay(whole, data), data, whole)
  {
  }

  /** A buffer with "data" written from its start on, as far as it goes. */
  function Overlay(whole: seq<byte>, data: seq<byte>): (r: seq<byte>)
    ensures |r| == |whole|
  {
    if |data| <= |whole| then data + whole[|data|..] else data[..|whole|]
  }

  lemma OverlayNothing(whole: seq<byte>)
    ensures Overlay(whole, []) == whole
  {
  }

  lemma OverlayOne(whole: seq<byte>, data: seq<byte>, b: byte)
    ensures Overlay(whole, data + [b])
         == if |data| < |whole| then Overlay(whole, data)[|data| := b] else Overlay(whole, data)
  {
  }

  lemma DispatchIs(d: Device, l: Link)
    ensures Dispatch(d, l) == DispatchFrom(d, l, l.clock + USB_XFER_TIMEOUT, 0, 0)
  {
  }

  /** One turn of the transfer loop, when it ends in an error. */
  lemma InFromStops(d: Device, l: Link, nbytes: u16, maxpkt: byte, got: Received)
    ensures var r := InFrom(d, l, nbytes, maxpkt, got);
            var x := Dispatch(d, l);
            && (x.rcode != 0 ==> r == Received(x.rcode, got.data, got.acks, got.stages + [Stage(IN, x.rcode)], x.link))
            && (x.rcode == 0 && !At(d, x.link.pos - 1).available ==>
                  r == Received(RCODE_NO_DATA, got.data, got.acks + 1, got.stages + [Stage(IN, RCODE_NO_DATA)], x.link))
  {
  }

  /** One turn of the transfer loop, when a packet has been received. */
  lemma InFromNext(d: Device, l: Link, nbytes: u16, maxpkt: byte, got: Received)
    requires var x := Dispatch(d, l); x.rcode == 0 && At(d, x.link.pos - 1).available
    ensures var x := Dispatch(d, l);
            var packet := At(d, x.link.pos - 1).payload;
            var all := Taken(got, packet, x.link);
            && l.pos < x.link.pos <= |d|
            && InFrom(d, l, nbytes, maxpkt, got) ==
                 if Ends(|packet|, |all.data|, nbytes, maxpkt) then all else InFrom(d, x.link, nbytes, maxpkt, all)
  {
  }
}
