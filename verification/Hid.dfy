/** The HID probes: a byte-level walk over the configuration descriptor in a fixed buffer, and what it finds. */
module Hid {
  import opened Words
  import UsbSpec

  const USB_DESCRIPTOR_INTERFACE: byte := 0x04
  const USB_DESCRIPTOR_ENDPOINT: byte := 0x05
  const HID_INTF: byte := 0x03
  const BOOT_INTF_SUBCLASS: byte := 0x01
  const HID_PROTOCOL_KEYBOARD: byte := 0x01
  const HID_PROTOCOL_MOUSE: byte := 0x02
  const HID_K: byte := 1
  const HID_M: byte := 2
  const BUFFER := 256

  /** The memory the walk may look at: the 256-byte buffer and the bytes that follow it, enough for a record
      that starts at the buffer's last byte. */
  type Memory = m: seq<byte> | |m| == BUFFER + 16 witness seq(BUFFER + 16, i => 0)

  // ---------------------------------------------------------------- the walk

  datatype Found = At(pos: nat) | Nowhere | Stuck

  /** From record to record by their length bytes until one of type "ty" or the end; Stuck at a record of
      length 0, where the C loop would stay for ever. */
  function Walk(m: Memory, pos: nat, total: nat, ty: byte): (f: Found)
    requires total <= BUFFER
    ensures f.At? ==> pos <= f.pos < total && m[f.pos + 1] == ty
    decreases total - pos
  {
    if pos >= total then Nowhere
    else if m[pos + 1] == ty then At(pos)
    else if m[pos] == 0 then Stuck
    else Walk(m, pos + m[pos], total, ty)
  }

  /** The interface the probes look for. */
  predicate Matches(m: Memory, pos: nat, protocol: byte)
    requires pos < BUFFER
  {
    m[pos + 5] == HID_INTF && m[pos + 6] == BOOT_INTF_SUBCLASS && m[pos + 7] == protocol
  }

  /** What a walk over a configuration of "total" bytes finds: the first interface if it matches, and the
      first endpoint after it. */
  datatype Shape = Match(interface: nat, endpoint: Found) | NoMatch | NeverEnds

  function Parse(m: Memory, total: nat, protocol: byte): Shape
    requires total <= BUFFER
  {
    match Walk(m, 0, total, USB_DESCRIPTOR_INTERFACE)
    case Nowhere => NoMatch
    case Stuck => NeverEnds
    case At(i) =>
      if !Matches(m, i, protocol) then NoMatch
      else if Walk(m, i + m[i], total, USB_DESCRIPTOR_ENDPOINT).Stuck? then NeverEnds
      else Match(i, Walk(m, i + m[i], total, USB_DESCRIPTOR_ENDPOINT))
  }

  // ---------------------------------------------------------------- the probe

  /** One descriptor request: its result code and the bytes it puts at the start of the buffer. A request that
      fails on the way has already stored what came before. */
  datatype Fetch = Fetch(rcode: byte, bytes: seq<byte>)

  /** How the four requests of a probe are answered. */
  datatype Answers = Answers(first: Fetch, whole: Fetch, setConf: byte, setProto: byte)

  function Fill(m: Memory, f: Fetch): Memory
    requires |f.bytes| <= BUFFER
  {
    f.bytes + m[|f.bytes|..]
  }

  function TotalLength(m: Memory): (n: nat)
    ensures n <= BUFFER
  {
    var wTotalLength := Word(m[2], m[3]);
    if wTotalLength > BUFFER then BUFFER else wTotalLength
  }

  /** The two tables a probe may write: the device's record and the HID driver's own records. */
  type Endpoint = UsbSpec.EpRecord

  datatype Tables = Tables(devclass: byte, usesHidEp: bool, ep0MaxPkt: u16, hidEp: seq<Endpoint>, interface: byte,
                           addr: byte)

  predicate TablesOk(t: Tables) {
    |t.hidEp| == 2
  }

  /** HID_init. */
  function HidInit(t: Tables): Tables
    requires TablesOk(t)
  {
    t.(hidEp := t.hidEp[1 := t.hidEp[1].(sndToggle := false, rcvToggle := false)])
  }

  /** The tables once an interface has matched; the packet size passes through a byte. */
  function Adopt(t: Tables, m: Memory, i: nat, devclass: byte, addr: byte): Tables
    requires TablesOk(t) && i < BUFFER
  {
    var u := HidInit(t.(devclass := devclass));
    u.(usesHidEp := true, hidEp := u.hidEp[0 := u.hidEp[0].(maxPktSize := t.ep0MaxPkt % 256)],
        interface := m[i + 2], addr := addr)
  }

  /** The tables once its endpoint has been found. */
  function FillEndpoint(t: Tables, m: Memory, e: nat): Tables
    requires TablesOk(t) && e < BUFFER
  {
    t.(hidEp := t.hidEp[1 := t.hidEp[1].(epAddr := m[e + 2], attr := m[e + 3],
                                         maxPktSize := Word(m[e + 4], m[e + 5]), interval := m[e + 6])])
  }

  /** The configuration the probe works on, if both descriptor requests succeed. */
  function Configuration(m: Memory, a: Answers): Option<(Memory, nat)>
    requires |a.first.bytes| <= BUFFER && |a.whole.bytes| <= BUFFER
  {
    if a.first.rcode != 0 || a.whole.rcode != 0 then None
    else Some((Fill(Fill(m, a.first), a.whole), TotalLength(Fill(m, a.first))))
  }

  /** The requests by which a probe sets the device up. */
  datatype Setting = SetConfiguration(value: byte) | SetBootProtocol(interface: byte)

  /** What is sent once the endpoint has been found: the configuration's own value, then, if that succeeds, the
      boot protocol for the interface. */
  function Settings(confvalue: byte, interface: byte, a: Answers): seq<Setting> {
    [SetConfiguration(confvalue)] + if a.setConf == 0 then [SetBootProtocol(interface)] else []
  }

  /** What a probe does: whether it takes the device, the tables afterwards and the settings sent. */
  datatype Outcome = Outcome(found: bool, tables: Tables, sent: seq<Setting>)

  function ProbeSpec(m: Memory, t: Tables, addr: byte, protocol: byte, devclass: byte, a: Answers): Outcome
    requires TablesOk(t) && |a.first.bytes| <= BUFFER && |a.whole.bytes| <= BUFFER
  {
    match Configuration(m, a)
    case None => Outcome(false, t, [])
    case Some((m', total)) =>
      match Parse(m', total, protocol)
      case Match(i, e) =>
        var u := Adopt(t, m', i, devclass, addr);
        if e.At? then
          Outcome(a.setConf == 0 && a.setProto == 0, FillEndpoint(u, m', e.pos), Settings(m'[5], u.interface, a))
        else
          Outcome(false, u, [])
      case _ => Outcome(false, t, [])
  }

  class Prober {
    const bigbuf: array<byte>      // the buffer and the bytes after it
    var devclass: byte             // devtable[addr].devclass
    var usesHidEp: bool            // devtable[addr].epinfo is hid_ep
    var ep0MaxPkt: u16             // devtable[addr].epinfo->MaxPktSize
    const hidEp: array<Endpoint>   // hid_ep
    var interface: byte            // hid_device
    var addr: byte
    ghost var sent: seq<Setting>   // the settings sent

    ghost predicate Valid()
      reads this
    {
      bigbuf.Length == BUFFER + 16 && hidEp.Length == 2
    }

    ghost function View(): Tables
      reads this, hidEp
    {
      Tables(devclass, usesHidEp, ep0MaxPkt, hidEp[..], interface, addr)
    }

    constructor (addr: byte, ep0MaxPkt: u16)
      ensures Valid() && fresh(bigbuf) && fresh(hidEp) && !usesHidEp && this.ep0MaxPkt == ep0MaxPkt && sent == []
    {
      bigbuf := new byte[BUFFER + 16];
      hidEp := new Endpoint[2](i => UsbSpec.EpRecord(0, 0, 0, 0, false, false));
      devclass, usesHidEp, interface := 0, false, 0;
      this.addr, this.ep0MaxPkt, sent := addr, ep0MaxPkt, [];
    }

    /** The walking loop: from "start" to the first record of type "ty". */
    method Skip(start: nat, total: nat, ty: byte) returns (pos: nat)
      requires Valid() && total <= BUFFER
      requires !Walk(bigbuf[..], start, total, ty).Stuck?
      ensures match Walk(bigbuf[..], start, total, ty)
              case At(p) => pos == p
              case Nowhere => pos >= total
              case Stuck => true
    {
      pos := start;
      while pos < total && bigbuf[pos + 1] != ty
        invariant Walk(bigbuf[..], pos, total, ty) == Walk(bigbuf[..], start, total, ty)
        decreases total - pos
      {
        pos := pos + bigbuf[pos];
      }
    }

    /** MAXbytes_rd into the buffer by one descriptor request. */
    method Request(f: Fetch)
      requires Valid() && |f.bytes| <= BUFFER
      modifies bigbuf
      ensures forall j :: 0 <= j < |f.bytes| ==> bigbuf[j] == f.bytes[j]
      ensures forall j :: |f.bytes| <= j < bigbuf.Length ==> bigbuf[j] == old(bigbuf[j])
      ensures bigbuf[..] == Fill(old(bigbuf[..]), f)
    {
      var i := 0;
      while i < |f.bytes|
        invariant 0 <= i <= |f.bytes|
        invariant forall j :: 0 <= j < i ==> bigbuf[j] == f.bytes[j]
        invariant forall j :: i <= j < bigbuf.Length ==> bigbuf[j] == old(bigbuf[j])
      {
        bigbuf[i] := f.bytes[i];
        i := i + 1;
      }
    }

    /** Both descriptor requests; the second asks for as much as the first announced, at most the buffer. */
    method FetchConfiguration(a: Answers) returns (ok: bool, total: nat)
      requires Valid() && |a.first.bytes| <= BUFFER && |a.whole.bytes| <= BUFFER
      modifies bigbuf
      ensures var c := Configuration(old(bigbuf[..]), a);
              ok == c.Some? && total <= BUFFER && (ok ==> c.value == (bigbuf[..], total))
      ensures ok <==> a.first.rcode == 0 && a.whole.rcode == 0
      ensures ok ==> forall j :: 0 <= j < |a.whole.bytes| ==> bigbuf[j] == a.whole.bytes[j]
      ensures ok ==> forall j :: |a.whole.bytes| <= j < bigbuf.Length ==>
                       bigbuf[j] == if j < |a.first.bytes| then a.first.bytes[j] else old(bigbuf[j])
    {
      Request(a.first);
      if a.first.rcode != 0 {
        return false, 0;
      }
      var wTotalLength := Word(bigbuf[2], bigbuf[3]);
      total := if wTotalLength > BUFFER then BUFFER else wTotalLength;
      Request(a.whole);
      return a.whole.rcode == 0, total;
    }

    /** The interface at "pos" has matched: switch to the HID endpoint records. */
    method AdoptInterface(pos: nat, devclass: byte, addr: byte)
      requires Valid() && pos < BUFFER
      modifies this, hidEp
      ensures Valid() && View() == Adopt(old(View()), bigbuf[..], pos, devclass, addr) && sent == old(sent)
    {
      this.devclass := devclass;
      var tmpbyte: byte := ep0MaxPkt % 256;
      hidEp[1] := hidEp[1].(sndToggle := false, rcvToggle := false);
      usesHidEp := true;
      hidEp[0] := hidEp[0].(maxPktSize := tmpbyte);
      interface := bigbuf[pos + 2];
      this.addr := addr;
    }

    /** The endpoint at "pos" has been found: fill in its record and set the device up. */
    method TakeEndpoint(pos: nat, confvalue: byte, a: Answers) returns (found: bool)
      requires Valid() && pos < BUFFER
      modifies this`sent, hidEp
      ensures Valid() && View() == FillEndpoint(old(View()), bigbuf[..], pos)
      ensures found == (a.setConf == 0 && a.setProto == 0)
      ensures sent == old(sent) + if a.setConf == 0 then [SetConfiguration(confvalue), SetBootProtocol(interface)]
                                  else [SetConfiguration(confvalue)]
    {
      hidEp[1] := hidEp[1].(epAddr := bigbuf[pos + 2], attr := bigbuf[pos + 3],
                            maxPktSize := Word(bigbuf[pos + 4], bigbuf[pos + 5]), interval := bigbuf[pos + 6]);
      sent := sent + [SetConfiguration(confvalue)];
      if a.setConf != 0 {
        return false;
      }
      sent := sent + [SetBootProtocol(interface)];
      return a.setProto == 0;
    }

    /** HIDMProbe and HIDKProbe, which differ in the protocol and the device class alone. */
    method Probe(addr: byte, protocol: byte, devclass: byte, a: Answers) returns (found: bool)
      requires Valid() && |a.first.bytes| <= BUFFER && |a.whole.bytes| <= BUFFER
      requires var c := Configuration(bigbuf[..], a); c.Some? ==> Parse(c.value.0, c.value.1, protocol) != NeverEnds
      modifies this, bigbuf, hidEp
      ensures Valid()
      ensures var p := ProbeSpec(old(bigbuf[..]), old(View()), addr, protocol, devclass, a);
              found == p.found && View() == p.tables && sent == old(sent) + p.sent
    {
      hide Fill, Walk, Matches, Adopt, TotalLength, FillEndpoint;
      var ok, total := FetchConfiguration(a);
      if !ok {
        return false;
      }
      assert View() == old(View());
      var confvalue := bigbuf[5];
      var pos := Skip(0, total, USB_DESCRIPTOR_INTERFACE);
      if pos >= total {
        return false;
      }
      var matches := MatchesAt(pos, protocol);
      if matches {
        AdoptInterface(pos, devclass, addr);
        pos := Skip(pos + bigbuf[pos], total, USB_DESCRIPTOR_ENDPOINT);
        if pos >= total {
          return false;
        }
        found := TakeEndpoint(pos, confvalue, a);
        return;
      }
      return false;
    }

    method MatchesAt(pos: nat, protocol: byte) returns (matches: bool)
      requires Valid() && pos < BUFFER
      ensures matches == Matches(bigbuf[..], pos, protocol)
    {
      var cls, subclass, proto := bigbuf[pos + 5], bigbuf[pos + 6], bigbuf[pos + 7];
      matches := cls == HID_INTF && subclass == BOOT_INTF_SUBCLASS && proto == protocol;
    }
  }
}
