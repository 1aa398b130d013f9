/** Packets on the bus: what the transfer layer launches and what comes back, for every behaviour of the
    device. The device is a sequence of replies, one for each packet launched; after its end it is silent. */
module UsbSpec {
  import opened Words

  const hrSUCCESS: byte := 0x00
  const hrNAK: byte := 0x04
  const hrSTALL: byte := 0x05
  const hrTIMEOUT: byte := 0x0E
  const RCODE_TIMEOUT: byte := 0xFF
  const RCODE_NO_DATA: byte := 0xF0
  const RCODE_NOT_IMPLEMENTED: byte := 0xFF

  const USB_NAK_LIMIT := 200
  const USB_RETRY_LIMIT := 3
  const USB_XFER_TIMEOUT := 5000

  type Nibble = x: int | 0 <= x < 16
  type Payload = s: seq<byte> | |s| < 256

  datatype Token = SETUP | IN | INHS | OUTHS

  /** The answer to one packet: the milliseconds until the transfer-done interrupt, the result code, and for
      an IN packet whether data is available and which. */
  datatype Reply = Reply(delay: nat, result: Nibble, available: bool, payload: Payload)

  type Device = seq<Reply>

  const SILENT := Reply(USB_XFER_TIMEOUT, 0, false, [])

  function At(d: Device, pos: nat): Reply {
    if pos < |d| then d[pos] else SILENT
  }

  /** The millisecond clock and the number of packets launched so far. */
  datatype Link = Link(clock: nat, pos: nat)

  /** One endpoint record; toggles are false for DATA0 and true for DATA1. */
  datatype EpRecord = EpRecord(epAddr: byte, attr: byte, maxPktSize: u16, interval: byte, sndToggle: bool,
                               rcvToggle: bool)

  // ---------------------------------------------------------------- XferDispatchPkt

  datatype Dispatched = Dispatched(rcode: byte, link: Link)

  /** One packet is answered before the deadline. */
  predicate Answered(d: Device, l: Link, deadline: nat) {
    l.clock + At(d, l.pos).delay < deadline
  }

  function AfterReply(d: Device, l: Link): Link {
    Link(l.clock + At(d, l.pos).delay, l.pos + 1)
  }

  /** The packet is relaunched on NAK and on bus timeout until one of the two budgets is used up. */
  function DispatchFrom(d: Device, l: Link, deadline: nat, naks: nat, retries: nat): (x: Dispatched)
    requires naks < USB_NAK_LIMIT && retries < USB_RETRY_LIMIT
    ensures l.pos < x.link.pos <= l.pos + (USB_NAK_LIMIT - naks) + (USB_RETRY_LIMIT - retries) - 1
    ensures l.clock <= x.link.clock <= if l.clock < deadline then deadline else l.clock
    ensures x.rcode == hrSUCCESS && deadline <= l.clock + USB_XFER_TIMEOUT ==> x.link.pos <= |d|
    decreases USB_NAK_LIMIT - naks + USB_RETRY_LIMIT - retries
  {
    if !Answered(d, l, deadline) then
      Dispatched(RCODE_TIMEOUT, Link(if l.clock < deadline then deadline else l.clock, l.pos + 1))
    else
      var result := At(d, l.pos).result;
      var next := AfterReply(d, l);
      if result == hrNAK && naks + 1 < USB_NAK_LIMIT then DispatchFrom(d, next, deadline, naks + 1, retries)
      else if result == hrTIMEOUT && retries + 1 < USB_RETRY_LIMIT then
        DispatchFrom(d, next, deadline, naks, retries + 1)
      else Dispatched(result, next)
  }

  /** One turn of the dispatch loop. */
  lemma DispatchTurn(d: Device, l: Link, deadline: nat, naks: nat, retries: nat)
    requires naks < USB_NAK_LIMIT && retries < USB_RETRY_LIMIT
    ensures var x := DispatchFrom(d, l, deadline, naks, retries);
            var result, next := At(d, l.pos).result, AfterReply(d, l);
            if !Answered(d, l, deadline) then
              x == Dispatched(RCODE_TIMEOUT, Link(if l.clock < deadline then deadline else l.clock, l.pos + 1))
            else if result == hrNAK && naks + 1 < USB_NAK_LIMIT then
              x == DispatchFrom(d, next, deadline, naks + 1, retries)
            else if result == hrTIMEOUT && retries + 1 < USB_RETRY_LIMIT then
              x == DispatchFrom(d, next, deadline, naks, retries + 1)
            else
              x == Dispatched(result, next)
  {
  }

  /** Silence never counts as success: the last packet of a successful dispatch was really answered. */
  function Dispatch(d: Device, l: Link): (x: Dispatched)
    ensures l.pos < x.link.pos && l.clock <= x.link.clock
    ensures x.rcode == hrSUCCESS ==> x.link.pos <= |d|
  {
    DispatchFrom(d, l, l.clock + USB_XFER_TIMEOUT, 0, 0)
  }

  // ---------------------------------------------------------------- XferInTransfer

  /** The stages of a transfer: the token of each and how it ended. */
  datatype Stage = Stage(token: Token, rcode: byte)

  /** "acks" counts the packets the host accepted: the link loses no acknowledgement, so each of them flips
      the data toggle on both sides. */
  datatype Received = Received(rcode: byte, data: seq<byte>, acks: nat, stages: seq<Stage>, link: Link)

  /** The loop from "got" on. The byte count is a 16-bit word: it wraps. */
  function InFrom(d: Device, l: Link, nbytes: u16, maxpkt: byte, got: Received): (r: Received)
    decreases if l.pos < |d| then |d| - l.pos else 0
  {
    var x := Dispatch(d, l);
    if x.rcode != 0 then
      got.(rcode := x.rcode, stages := got.stages + [Stage(IN, x.rcode)], link := x.link)
    else if !At(d, x.link.pos - 1).available then
      got.(rcode := RCODE_NO_DATA, acks := got.acks + 1, stages := got.stages + [Stage(IN, RCODE_NO_DATA)],
           link := x.link)
    else
      var packet := At(d, x.link.pos - 1).payload;
      var all := Taken(got, packet, x.link);
      if Ends(|packet|, |all.data|, nbytes, maxpkt) then all else InFrom(d, x.link, nbytes, maxpkt, all)
  }

  /** One more packet received. */
  function Taken(got: Received, packet: Payload, link: Link): Received {
    Received(0, got.data + packet, got.acks + 1, got.stages + [Stage(IN, 0)], link)
  }

  /** The exit test after a packet: a short one, or enough as far as the 16-bit count can tell. */
  predicate Ends(packet: nat, count: nat, nbytes: u16, maxpkt: byte) {
    packet < maxpkt || count % W16 >= nbytes
  }

  function InTransfer(d: Device, l: Link, nbytes: u16, maxpkt: byte): Received {
    InFrom(d, l, nbytes, maxpkt, Received(0, [], 0, [], l))
  }

  // ---------------------------------------------------------------- XferCtrlReq

  /** A control request: its direction, and whether the caller passes a buffer for a data stage. */
  datatype Control = Control(directionIn: bool, hasData: bool, nbytes: u16)

  function CtrlReq(d: Device, l: Link, c: Control, maxpkt: byte): Received
  {
    var s := Dispatch(d, l);
    var setup := Received(s.rcode, [], 0, [Stage(SETUP, s.rcode)], s.link);
    if s.rcode != 0 then setup
    else if c.hasData then
      if !c.directionIn then setup.(rcode := RCODE_NOT_IMPLEMENTED)
      else
        var r := InTransfer(d, s.link, c.nbytes, maxpkt);
        var received := r.(stages := setup.stages + r.stages);
        if r.rcode != 0 then received else Handshake(d, received, OUTHS)
    else
      Handshake(d, setup, if c.directionIn then OUTHS else INHS)
  }

  function Handshake(d: Device, r: Received, token: Token): Received {
    var h := Dispatch(d, r.link);
    r.(rcode := h.rcode, stages := r.stages + [Stage(token, h.rcode)], link := h.link)
  }

  // ---------------------------------------------------------------- data toggles

  /** A data toggle after it has been flipped "times" times. */
  function Flip(toggle: bool, times: nat): bool {
    toggle != (times % 2 == 1)
  }

  /** The size of a boot report, asked for by every poll. */
  const REPORT_BYTES: u16 := 8

  /** The toggle saved for the endpoint of a control read: its data stage starts from DATA1. */
  function DataToggle(d: Device, l: Link, nbytes: u16, maxpkt: byte): bool
  {
    var r := InTransfer(d, Dispatch(d, l).link, nbytes, maxpkt);
    if r.rcode == 0 then Flip(true, r.acks) else true
  }
}
