/** The byte walk of the HID probes inverts the serialisation of descriptors. */
module HidTheorems {
  import opened Words
  import UsbSpec
  import UsbReads
  import opened Hid

  /** One descriptor as section 9.6 of the USB 2.0 specification lays it out: its first byte is its length,
      its second its type, and the types the probes read have at least their standard length. */
  predicate WellFormed(d: seq<byte>) {
    && |d| >= 2 && d[0] == |d|
    && (d[1] == USB_DESCRIPTOR_INTERFACE ==> |d| >= 9)
    && (d[1] == USB_DESCRIPTOR_ENDPOINT ==> |d| >= 7)
  }

  predicate AllWellFormed(ds: seq<seq<byte>>) {
    forall i :: 0 <= i < |ds| ==> WellFormed(ds[i])
  }

  /** The descriptors laid out one after the other. */
  function Serialise(ds: seq<seq<byte>>): seq<byte> {
    if ds == [] then [] else ds[0] + Serialise(ds[1..])
  }

  /** Where the k-th descriptor starts. */
  function Offset(ds: seq<seq<byte>>, k: nat): nat
    requires k <= |ds|
  {
    if k == 0 then 0 else |ds[0]| + Offset(ds[1..], k - 1)
  }

  /** The index of the first descriptor of type "ty" from the k-th on, or |ds|. */
  function First(ds: seq<seq<byte>>, k: nat, ty: byte): (i: nat)
    requires k <= |ds| && AllWellFormed(ds)
    ensures k <= i <= |ds|
    ensures forall j :: k <= j < i ==> ds[j][1] != ty
    ensures i < |ds| ==> ds[i][1] == ty
    decreases |ds| - k
  {
    if k == |ds| || ds[k][1] == ty then k else First(ds, k + 1, ty)
  }

  ghost predicate LaidOut(m: Memory, ds: seq<seq<byte>>) {
    && AllWellFormed(ds)
    && |Serialise(ds)| <= BUFFER
    && m[..|Serialise(ds)|] == Serialise(ds)
  }

  lemma {:induction false} OffsetNext(ds: seq<seq<byte>>, k: nat)
    requires k < |ds|
    ensures Offset(ds, k + 1) == Offset(ds, k) + |ds[k]|
  {
    if k > 0 {
      OffsetNext(ds[1..], k - 1);
    } else {
      assert Offset(ds[1..], 0) == 0;
    }
  }

  /** The k-th descriptor occupies its place in the serialisation. */
  lemma {:induction false} SerialisedAt(ds: seq<seq<byte>>, k: nat)
    requires k < |ds|
    ensures Offset(ds, k) + |ds[k]| <= |Serialise(ds)|
    ensures Serialise(ds)[Offset(ds, k)..Offset(ds, k) + |ds[k]|] == ds[k]
  {
    if k > 0 {
      SerialisedAt(ds[1..], k - 1);
      var rest := Serialise(ds[1..]);
      var o := Offset(ds[1..], k - 1);
      assert Serialise(ds)[Offset(ds, k)..Offset(ds, k) + |ds[k]|] == rest[o..o + |ds[k]|];
    }
  }

  lemma {:induction false} OffsetEnd(ds: seq<seq<byte>>)
    ensures Offset(ds, |ds|) == |Serialise(ds)|
  {
    if ds != [] {
      OffsetEnd(ds[1..]);
    }
  }

  /** Memory at the k-th descriptor reads as that descriptor. */
  lemma ReadsBack(m: Memory, ds: seq<seq<byte>>, k: nat, b: nat)
    requires LaidOut(m, ds) && k < |ds| && b < |ds[k]|
    ensures Offset(ds, k) + b < |Serialise(ds)| && m[Offset(ds, k) + b] == ds[k][b]
  {
    SerialisedAt(ds, k);
    var o := Offset(ds, k);
    assert Serialise(ds)[o..o + |ds[k]|][b] == Serialise(ds)[o + b] == m[..|Serialise(ds)|][o + b];
  }

  /** From the start of any descriptor the walk stops at exactly the first one of the type from there on,
      and never gets stuck. */
  lemma {:induction false} WalkFindsFirst(m: Memory, ds: seq<seq<byte>>, k: nat, ty: byte)
    requires LaidOut(m, ds) && k <= |ds|
    ensures var i := First(ds, k, ty);
            Walk(m, Offset(ds, k), |Serialise(ds)|, ty) == if i < |ds| then At(Offset(ds, i)) else Nowhere
    decreases |ds| - k
  {
    if k == |ds| {
      OffsetEnd(ds);
    } else {
      ReadsBack(m, ds, k, 0);
      ReadsBack(m, ds, k, 1);
      OffsetNext(ds, k);
      if ds[k][1] != ty {
        WalkFindsFirst(m, ds, k + 1, ty);
      }
    }
  }

  /** What both requests leave in the buffer is what the device answered, byte for byte: the whole configuration,
      behind it what is left of the first answer, behind that the old bytes; and the walk covers as much as the
      first answer announces in its bytes 2 and 3, the low one first, at most 256 bytes. */
  lemma FetchedBytes(m: Memory, a: Answers)
    requires |a.first.bytes| <= BUFFER && |a.whole.bytes| <= BUFFER && a.first.rcode == 0 && a.whole.rcode == 0
    ensures Configuration(m, a).Some?
    ensures var (m', total) := Configuration(m, a).value;
            && (forall j :: 0 <= j < |a.whole.bytes| ==> m'[j] == a.whole.bytes[j])
            && (forall j :: |a.whole.bytes| <= j < |m| ==>
                  m'[j] == if j < |a.first.bytes| then a.first.bytes[j] else m[j])
            && (|a.first.bytes| >= 4 ==>
                  var announced := a.first.bytes[2] as int + 256 * a.first.bytes[3] as int;
                  total == if announced > 256 then 256 else announced)
  {
  }

  /** A device answers both descriptor requests: it announces the length of its serialised descriptors and then
      sends them. */
  predicate Sends(a: Answers, ds: seq<seq<byte>>) {
    && AllWellFormed(ds) && |Serialise(ds)| <= BUFFER
    && 4 <= |a.first.bytes| <= BUFFER && a.first.bytes[2] as int + 256 * a.first.bytes[3] as int == |Serialise(ds)|
    && a.whole.bytes == Serialise(ds)
    && a.first.rcode == 0 && a.whole.rcode == 0
  }

  lemma SentIsLaidOut(m: Memory, a: Answers, ds: seq<seq<byte>>) returns (m': Memory)
    requires Sends(a, ds)
    ensures |a.first.bytes| <= BUFFER && |a.whole.bytes| <= BUFFER
    ensures Configuration(m, a) == Some((m', |Serialise(ds)|)) && LaidOut(m', ds)
    ensures a.whole.bytes == Serialise(ds) && (|Serialise(ds)| > 5 ==> m'[5] == a.whole.bytes[5])
  {
    FetchedBytes(m, a);
    m' := Configuration(m, a).value.0;
  }

  /** The interface the probe of "protocol" looks for: class 3, subclass 1. */
  predicate BootInterface(d: seq<byte>, protocol: byte)
    requires |d| >= 8
  {
    d[5] == 3 && d[6] == 1 && d[7] == protocol
  }

  /** What the two walks over the laid-out descriptors find. */
  lemma ParseFinds(m: Memory, ds: seq<seq<byte>>, protocol: byte)
    requires LaidOut(m, ds)
    ensures var i := First(ds, 0, USB_DESCRIPTOR_INTERFACE);
            var shape := Parse(m, |Serialise(ds)|, protocol);
            if i == |ds| || !BootInterface(ds[i], protocol) then shape == NoMatch
            else
              var e := First(ds, i + 1, USB_DESCRIPTOR_ENDPOINT);
              shape == Match(Offset(ds, i), if e < |ds| then At(Offset(ds, e)) else Nowhere)
  {
    hide Walk, Serialise, Offset, LaidOut;
    AreWellFormed(m, ds);
    WalkFindsFirst(m, ds, 0, USB_DESCRIPTOR_INTERFACE);
    OffsetZero(ds);
    var i := First(ds, 0, USB_DESCRIPTOR_INTERFACE);
    if i < |ds| {
      InterfaceReadsBack(m, ds, i);
      OffsetNext(ds, i);
      WalkFindsFirst(m, ds, i + 1, USB_DESCRIPTOR_ENDPOINT);
    }
  }

  /** From the device's answers to the tables: a device announces and sends any well-formed descriptors. A probe
      takes it if and only if the first interface is the boot interface of the protocol, an endpoint follows it
      and both settings succeed. The tables then hold the numbers of exactly that interface and that endpoint, and
      the device was told the value of that very configuration and, if it accepted it, the boot protocol of that
      interface. */
  lemma ProbeInvertsSerialisation(m: Memory, t: Tables, addr: byte, protocol: byte, devclass: byte, a: Answers,
                                  ds: seq<seq<byte>>)
    requires TablesOk(t) && Sends(a, ds)
    ensures var c := Configuration(m, a); c.Some? && Parse(c.value.0, c.value.1, protocol) != NeverEnds
    ensures var p := ProbeSpec(m, t, addr, protocol, devclass, a);
            var u := p.tables;
            var i := First(ds, 0, USB_DESCRIPTOR_INTERFACE);
            if i == |ds| || !BootInterface(ds[i], protocol) then
              p == Outcome(false, t, [])
            else
              var e := First(ds, i + 1, USB_DESCRIPTOR_ENDPOINT);
              && u.devclass == devclass && u.usesHidEp && u.addr == addr && u.interface == ds[i][2]
              && |u.hidEp| == 2 && u.hidEp[0] == t.hidEp[0].(maxPktSize := t.ep0MaxPkt % 256)
              && if e == |ds| then
                   !p.found && p.sent == [] && u.hidEp[1] == t.hidEp[1].(sndToggle := false, rcvToggle := false)
                 else
                   && p.found == (a.setConf == 0 && a.setProto == 0)
                   && u.hidEp[1] == EndpointRecord(ds[e])
                   && |a.whole.bytes| > 5
                   && p.sent == if a.setConf == 0 then [SetConfiguration(a.whole.bytes[5]), SetBootProtocol(ds[i][2])]
                                else [SetConfiguration(a.whole.bytes[5])]
  {
    hide Serialise, Offset, Configuration, Parse, Sends, LaidOut, First, ProbeSpec;
    var m' := SentIsLaidOut(m, a, ds);
    AreWellFormed(m', ds);
    ParseFinds(m', ds, protocol);
    var i := First(ds, 0, USB_DESCRIPTOR_INTERFACE);
    if i < |ds| {
      InterfaceReadsBack(m', ds, i);
      var e := First(ds, i + 1, USB_DESCRIPTOR_ENDPOINT);
      if e < |ds| {
        EndpointReadsBack(m', ds, e);
      }
      if BootInterface(ds[i], protocol) {
        ProbeMatched(m, t, addr, protocol, devclass, a, m', |Serialise(ds)|, Offset(ds, i));
      } else {
        ProbeUnmatched(m, t, addr, protocol, devclass, a);
      }
    } else {
      ProbeUnmatched(m, t, addr, protocol, devclass, a);
    }
  }

  lemma ProbeUnmatched(m: Memory, t: Tables, addr: byte, protocol: byte, devclass: byte, a: Answers)
    requires TablesOk(t) && |a.first.bytes| <= BUFFER && |a.whole.bytes| <= BUFFER
    requires var c := Configuration(m, a); c.Some? && Parse(c.value.0, c.value.1, protocol) == NoMatch
    ensures ProbeSpec(m, t, addr, protocol, devclass, a) == Outcome(false, t, [])
  {
    hide Configuration, Parse;
  }

  /** What a probe does with the interface at "o" and the endpoint at "e.pos". */
  lemma ProbeMatched(m: Memory, t: Tables, addr: byte, protocol: byte, devclass: byte, a: Answers, m': Memory,
                     total: nat, o: nat)
    requires TablesOk(t) && |a.first.bytes| <= BUFFER && |a.whole.bytes| <= BUFFER
    requires Configuration(m, a) == Some((m', total)) && total <= BUFFER
    requires Parse(m', total, protocol).Match? && Parse(m', total, protocol).interface == o < BUFFER
    ensures var p := ProbeSpec(m, t, addr, protocol, devclass, a);
            var u, e := p.tables, Parse(m', total, protocol).endpoint;
            && u.devclass == devclass && u.usesHidEp && u.addr == addr && u.interface == m'[o + 2] && |u.hidEp| == 2
            && u.hidEp[0] == t.hidEp[0].(maxPktSize := t.ep0MaxPkt % 256)
            && if !e.At? then
                 !p.found && p.sent == [] && u.hidEp[1] == t.hidEp[1].(sndToggle := false, rcvToggle := false)
               else
                 && e.pos < BUFFER
                 && p.found == (a.setConf == 0 && a.setProto == 0)
                 && u.hidEp[1] == EndpointRecord(m'[e.pos..e.pos + 7])
                 && p.sent == if a.setConf == 0 then [SetConfiguration(m'[5]), SetBootProtocol(m'[o + 2])]
                              else [SetConfiguration(m'[5])]
  {
    hide Configuration, Walk, Matches;
  }

  /** The record of an endpoint descriptor, both toggles at DATA0. */
  function EndpointRecord(d: seq<byte>): UsbSpec.EpRecord
    requires |d| >= 7
  {
    UsbSpec.EpRecord(d[2], d[3], d[4] as int + 256 * d[5] as int, d[6], false, false)
  }

  lemma InterfaceReadsBack(m: Memory, ds: seq<seq<byte>>, i: nat)
    requires LaidOut(m, ds) && i < |ds| && |ds[i]| >= 9
    ensures var o := Offset(ds, i);
            && o + 8 < |Serialise(ds)|
            && m[o] == ds[i][0] == |ds[i]| && m[o + 2] == ds[i][2]
            && m[o + 5] == ds[i][5] && m[o + 6] == ds[i][6] && m[o + 7] == ds[i][7]
  {
    hide LaidOut, Serialise, Offset;
    AreWellFormed(m, ds);
    ReadsBack(m, ds, i, 0);
    ReadsBack(m, ds, i, 2);
    ReadsBack(m, ds, i, 5);
    ReadsBack(m, ds, i, 6);
    ReadsBack(m, ds, i, 7);
    ReadsBack(m, ds, i, 8);
  }

  /** From the packets on the bus to those answers: a device with these descriptors answers the two descriptor
      requests, one after the other, with their first 9 bytes and with all of them, in packets of its size. */
  lemma ReadsBringAnswers(d: UsbSpec.Device, l: UsbSpec.Link, maxpkt: byte, ds: seq<seq<byte>>, setConf: byte,
                          setProto: byte)
    requires AllWellFormed(ds) && 9 <= |Serialise(ds)| <= BUFFER && maxpkt >= 1
    requires Serialise(ds)[2] as int + 256 * Serialise(ds)[3] as int == |Serialise(ds)|
    requires UsbReads.Replies(d, l.pos, Serialise(ds)[..9], 9, maxpkt)
    requires UsbReads.Replies(d, l.pos + 2 + |UsbReads.Packets(Serialise(ds)[..9], maxpkt, true)|, Serialise(ds),
                              |Serialise(ds)|, maxpkt)
    ensures var r := UsbSpec.CtrlReq(d, l, UsbSpec.Control(true, true, 9), maxpkt);
            var s := UsbSpec.CtrlReq(d, r.link, UsbSpec.Control(true, true, |Serialise(ds)|), maxpkt);
            Sends(Answers(Fetch(r.rcode, r.data), Fetch(s.rcode, s.data), setConf, setProto), ds)
  {
    hide UsbSpec.CtrlReq, UsbReads.Replies, Serialise;
    UsbReads.ReadReturnsTheAnswer(d, l, 9, maxpkt, Serialise(ds)[..9]);
    var r := UsbSpec.CtrlReq(d, l, UsbSpec.Control(true, true, 9), maxpkt);
    UsbReads.ReadReturnsTheAnswer(d, r.link, |Serialise(ds)|, maxpkt, Serialise(ds));
  }

  /** A probe in which a descriptor request fails changes nothing and sends nothing. */
  lemma FailedRequestChangesNothing(m: Memory, t: Tables, addr: byte, protocol: byte, devclass: byte, a: Answers)
    requires TablesOk(t) && |a.first.bytes| <= BUFFER && |a.whole.bytes| <= BUFFER
    requires a.first.rcode != 0 || a.whole.rcode != 0
    ensures ProbeSpec(m, t, addr, protocol, devclass, a) == Outcome(false, t, [])
  {
  }

  lemma OffsetZero(ds: seq<seq<byte>>)
    ensures Offset(ds, 0) == 0
  {
  }

  lemma EndpointReadsBack(m: Memory, ds: seq<seq<byte>>, e: nat)
    requires LaidOut(m, ds) && e < |ds| && ds[e][1] == USB_DESCRIPTOR_ENDPOINT
    ensures var o := Offset(ds, e);
            && o + 6 < |Serialise(ds)|
            && m[o + 2] == ds[e][2] && m[o + 3] == ds[e][3] && m[o + 4] == ds[e][4]
            && m[o + 5] == ds[e][5] && m[o + 6] == ds[e][6]
  {
    hide LaidOut, Serialise, Offset;
    assert WellFormed(ds[e]) by {
      AreWellFormed(m, ds);
    }
    ReadsBack(m, ds, e, 2);
    ReadsBack(m, ds, e, 3);
    ReadsBack(m, ds, e, 4);
    ReadsBack(m, ds, e, 5);
    ReadsBack(m, ds, e, 6);
  }

  lemma AreWellFormed(m: Memory, ds: seq<seq<byte>>)
    requires LaidOut(m, ds)
    ensures AllWellFormed(ds)
  {
  }

  /** No configuration, well formed or not, is taken by both probes. */
  lemma NotBothProbes(m1: Memory, m2: Memory, t1: Tables, t2: Tables, addr: byte, a1: Answers, a2: Answers)
    requires TablesOk(t1) && |a1.first.bytes| <= BUFFER && |a1.whole.bytes| <= BUFFER
    requires TablesOk(t2) && |a2.first.bytes| <= BUFFER && |a2.whole.bytes| <= BUFFER
    requires Configuration(m1, a1) == Configuration(m2, a2)
    ensures !ProbeSpec(m1, t1, addr, HID_PROTOCOL_MOUSE, HID_M, a1).found
         || !ProbeSpec(m2, t2, addr, HID_PROTOCOL_KEYBOARD, HID_K, a2).found
  {
    hide Configuration, Adopt, FillEndpoint;
  }

  /** Where the walk stands after "n" hops. */
  function Hop(m: Memory, pos: nat, n: nat): nat
    decreases n
  {
    if n == 0 || pos >= BUFFER then pos else Hop(m, pos + m[pos], n - 1)
  }

  /** The walk passes over the record it reaches after "n" hops. */
  ghost predicate Passes(m: Memory, pos: nat, n: nat, total: nat, ty: byte)
    requires total <= BUFFER
  {
    var p := Hop(m, pos, n);
    p < total && m[p + 1] != ty
  }

  /** After "n" hops over other records the walk reaches one of length 0 that is not of the type. */
  ghost predicate ReachesZero(m: Memory, pos: nat, n: nat, total: nat, ty: byte)
    requires total <= BUFFER
  {
    && (forall j: nat :: j <= n ==> Passes(m, pos, j, total, ty))
    && Passes(m, pos, n, total, ty) && m[Hop(m, pos, n)] == 0
  }

  lemma {:induction false} ZeroStays(m: Memory, pos: nat, n: nat)
    requires pos < BUFFER && m[pos] == 0
    ensures Hop(m, pos, n) == pos
  {
    if n > 0 {
      ZeroStays(m, pos, n - 1);
    }
  }

  /** The loop runs for ever, passing over a record at every hop, if and only if some hop reaches a record of
      length 0 that is not of the type; these are the walks the model calls stuck. */
  lemma {:induction false} NeverEndsIff(m: Memory, pos: nat, total: nat, ty: byte)
    requires total <= BUFFER
    ensures (forall n: nat :: Passes(m, pos, n, total, ty)) <==> exists n: nat :: ReachesZero(m, pos, n, total, ty)
    ensures (forall n: nat :: Passes(m, pos, n, total, ty)) <==> Walk(m, pos, total, ty).Stuck?
    decreases total - pos
  {
    if pos >= total || m[pos + 1] == ty {
      assert !Passes(m, pos, 0, total, ty);
    } else if m[pos] == 0 {
      assert ReachesZero(m, pos, 0, total, ty);
      forall n: nat
        ensures Passes(m, pos, n, total, ty)
      {
        ZeroStays(m, pos, n);
      }
    } else {
      var next := pos + m[pos];
      NeverEndsIff(m, next, total, ty);
      assert Passes(m, pos, 0, total, ty);
      assert forall n: nat {:trigger Hop(m, next, n)} :: Hop(m, pos, n + 1) == Hop(m, next, n);
      OneHop(m, pos, total, ty);
    }
  }

  lemma OneHop(m: Memory, pos: nat, total: nat, ty: byte)
    requires pos < total <= BUFFER && m[pos + 1] != ty && m[pos] != 0
    ensures var next := pos + m[pos];
            && ((forall n: nat :: Passes(m, pos, n, total, ty)) <==> forall n: nat :: Passes(m, next, n, total, ty))
            && ((exists n: nat :: ReachesZero(m, pos, n, total, ty)) <==>
                exists n: nat :: ReachesZero(m, next, n, total, ty))
  {
    var next := pos + m[pos];
    forall n: nat
      ensures n > 0 ==> (Passes(m, pos, n, total, ty) <==> Passes(m, next, n - 1, total, ty))
      ensures n > 0 ==> Hop(m, pos, n) == Hop(m, next, n - 1)
    {
    }
    if forall n: nat :: Passes(m, pos, n, total, ty) {
      forall n: nat
        ensures Passes(m, next, n, total, ty)
      {
        assert Passes(m, pos, n + 1, total, ty);
      }
    }
    if n: nat :| ReachesZero(m, next, n, total, ty) {
      forall j: nat | j <= n + 1
        ensures Passes(m, pos, j, total, ty)
      {
        assert j > 0 ==> Passes(m, next, j - 1, total, ty);
      }
      assert ReachesZero(m, pos, n + 1, total, ty);
    }
    if n: nat :| ReachesZero(m, pos, n, total, ty) {
      assert n > 0;
      forall j: nat | j <= n - 1
        ensures Passes(m, next, j, total, ty)
      {
        assert Passes(m, pos, j + 1, total, ty);
      }
      assert ReachesZero(m, next, n - 1, total, ty);
    }
  }

  /** A device on which both probes run for ever: its configuration starts with a descriptor of length 0. */
  lemma ZeroLengthHangs(m: Memory, protocol: byte, setConf: byte, setProto: byte)
    ensures var f := Fetch(0, [0, 2, 9, 0]);
            var c := Configuration(m, Answers(f, f, setConf, setProto));
            && c.Some? && c.value.1 == 9
            && Parse(c.value.0, 9, protocol) == NeverEnds
            && forall n: nat :: Passes(c.value.0, 0, n, 9, USB_DESCRIPTOR_INTERFACE)
  {
    var f := Fetch(0, [0, 2, 9, 0]);
    var m' := Fill(Fill(m, f), f);
    assert Word(9, 0) == 9;
    assert Walk(m', 0, 9, USB_DESCRIPTOR_INTERFACE) == Stuck;
    NeverEndsIff(m', 0, 9, USB_DESCRIPTOR_INTERFACE);
  }
}
