/** Data toggle synchronisation of the report endpoint, from the probe on and over whole runs. */
module UsbToggles {
  import opened Words
  import opened UsbSpec
  import opened UsbTheorems

  /** The toggles saved by the host for endpoints 0 and 1, and the one the device will use next on
      endpoint 1; false is DATA0. */
  datatype Toggles = Toggles(ep0: bool, ep1: bool, device1: bool)

  /** What goes over the bus once a device has an address: polls of a report, control requests, requests that
      reset the device's endpoint toggles (SET_CONFIGURATION, SET_INTERFACE and CLEAR_FEATURE of a halted
      endpoint in section 9.4 of the USB 2.0 specification), and the probe's configuration of the device. */
  datatype Traffic = Poll | Request(c: Control) | Reset | Configure

  /** kbdPoll and mousePoll: the transfer starts from the saved toggle, and the toggle the chip has reached
      is saved only when the transfer succeeds. */
  function PollStep(d: Device, l: Link, maxpkt: byte, t: Toggles): (Link, Toggles) {
    var r := InTransfer(d, l, REPORT_BYTES, maxpkt);
    (r.link, t.(ep1 := if r.rcode == 0 then Flip(t.ep1, r.acks) else t.ep1, device1 := Flip(t.device1, r.acks)))
  }

  /** A control request: the host touches its record of endpoint 0 alone, whose data stage starts from DATA1. */
  function RequestStep(d: Device, l: Link, c: Control, maxpkt: byte, t: Toggles): (Link, Toggles) {
    (CtrlReq(d, l, c, maxpkt).link,
     t.(ep0 := if c.directionIn && c.hasData && Dispatch(d, l).rcode == 0
               then DataToggle(d, l, c.nbytes, maxpkt) else t.ep0))
  }

  /** The requests that reset toggles are writes without a data stage. */
  const NO_DATA := Control(false, false, 0)

  /** The device resets its toggle to DATA0 when such a request completes; the host's saved one stays. */
  function ResetStep(d: Device, l: Link, maxpkt: byte, t: Toggles): (Link, Toggles) {
    var r := CtrlReq(d, l, NO_DATA, maxpkt);
    (r.link, t.(device1 := if r.rcode == 0 then false else t.device1))
  }

  /** The probe: HID_init sets the saved toggle to DATA0, then the device is configured, which resets its own
      (section 9.1.1.5 of the USB 2.0 specification). */
  function ConfigureStep(d: Device, l: Link, maxpkt: byte, t: Toggles): (Link, Toggles) {
    ResetStep(d, l, maxpkt, t.(ep1 := false))
  }

  /** The packet sizes of the two endpoints. */
  datatype Sizes = Sizes(control: byte, report: byte)

  function Step(d: Device, l: Link, m: Sizes, t: Toggles, e: Traffic): (Link, Toggles) {
    match e
    case Poll => PollStep(d, l, m.report, t)
    case Request(c) => RequestStep(d, l, c, m.control, t)
    case Reset => ResetStep(d, l, m.control, t)
    case Configure => ConfigureStep(d, l, m.control, t)
  }

  function Run(d: Device, l: Link, m: Sizes, t: Toggles, es: seq<Traffic>): (Link, Toggles)
    decreases |es|
  {
    if es == [] then (l, t)
    else
      var (l', t') := Step(d, l, m, t, es[0]);
      Run(d, l', m, t', es[1..])
  }

  /** The chip makes data available with every IN it reports successful. */
  ghost predicate Honest(d: Device) {
    forall p :: 0 <= p < |d| ==> (d[p].result == hrSUCCESS ==> d[p].available)
  }

  ghost predicate InStep(t: Toggles) {
    t.ep1 == t.device1
  }

  // ---------------------------------------------------------------- polls

  /** A request of at most one packet either fails before its first packet or is over with it. */
  lemma OnePacketTransfer(d: Device, l: Link, nbytes: u16, maxpkt: byte)
    requires Honest(d) && 1 <= nbytes <= maxpkt
    ensures var r := InTransfer(d, l, nbytes, maxpkt); r.acks == if r.rcode == 0 then 1 else 0
  {
    DispatchBounded(d, l);
    hide Dispatch;
    var x := Dispatch(d, l);
    if x.rcode == 0 {
      assert At(d, x.link.pos - 1).available;
    }
  }

  /** A poll keeps the two sides in step against every device if and only if one packet can carry the whole
      report: with a smaller packet size a device can fail the transfer after an odd number of packets. */
  lemma PollKeepsStepIff(maxpkt: byte)
    ensures (forall d, l, t :: Honest(d) && InStep(t) ==> InStep(PollStep(d, l, maxpkt, t).1))
            <==> maxpkt >= REPORT_BYTES
  {
    if maxpkt >= REPORT_BYTES {
      forall d, l, t | Honest(d) && InStep(t)
        ensures InStep(PollStep(d, l, maxpkt, t).1)
      {
        OnePacketTransfer(d, l, REPORT_BYTES, maxpkt);
      }
    } else {
      var full: Payload := seq(maxpkt, i => 0);
      var d: Device := [Reply(0, hrSUCCESS, true, full), Reply(0, hrSTALL, false, [])];
      var l, t := Link(0, 0), Toggles(false, false, false);
      assert Honest(d) && InStep(t);
      StallAfterOne(d, full, maxpkt);
      assert !InStep(PollStep(d, l, maxpkt, t).1);
    }
  }

  lemma StallAfterOne(d: Device, full: Payload, maxpkt: byte)
    requires maxpkt == |full| < REPORT_BYTES
    requires d == [Reply(0, hrSUCCESS, true, full), Reply(0, hrSTALL, false, [])]
    ensures var r := InTransfer(d, Link(0, 0), REPORT_BYTES, maxpkt); r.rcode == hrSTALL && r.acks == 1
  {
    var first := Taken(Received(0, [], 0, [], Link(0, 0)), full, Link(0, 1));
    assert Dispatch(d, Link(0, 0)) == Dispatched(0, Link(0, 1));
    assert Dispatch(d, Link(0, 1)) == Dispatched(hrSTALL, Link(0, 2));
    assert InFrom(d, Link(0, 1), REPORT_BYTES, maxpkt, first).rcode == hrSTALL;
  }

  // ---------------------------------------------------------------- every event

  /** How an event must turn out to leave two sides in step that were: a poll completes or fails after an even
      number of packets; a reset fails or finds the device at DATA0; a configuration completes or finds it there. */
  predicate KeepsStep(d: Device, l: Link, m: Sizes, t: Toggles, e: Traffic) {
    match e
    case Poll => var r := InTransfer(d, l, REPORT_BYTES, m.report); r.rcode == 0 || r.acks % 2 == 0
    case Request(_) => true
    case Reset => CtrlReq(d, l, NO_DATA, m.control).rcode != 0 || !t.device1
    case Configure => CtrlReq(d, l, NO_DATA, m.control).rcode == 0 || !t.device1
  }

  lemma StepInStepIff(d: Device, l: Link, m: Sizes, t: Toggles, e: Traffic)
    requires InStep(t)
    ensures InStep(Step(d, l, m, t, e).1) <==> KeepsStep(d, l, m, t, e)
  {
    hide InTransfer, CtrlReq, Dispatch, DataToggle;
  }

  /** The two sides are in step before and after every event of a run. */
  ghost predicate InStepThroughout(d: Device, l: Link, m: Sizes, t: Toggles, es: seq<Traffic>)
    decreases |es|
  {
    InStep(t) && (es != [] ==> var (l', t') := Step(d, l, m, t, es[0]); InStepThroughout(d, l', m, t', es[1..]))
  }

  ghost predicate KeepsStepThroughout(d: Device, l: Link, m: Sizes, t: Toggles, es: seq<Traffic>)
    decreases |es|
  {
    es != [] ==>
      && KeepsStep(d, l, m, t, es[0])
      && var (l', t') := Step(d, l, m, t, es[0]); KeepsStepThroughout(d, l', m, t', es[1..])
  }

  /** Over whole runs the toggles stay in step throughout if and only if every event keeps them so. */
  lemma {:induction false} RunInStepIff(d: Device, l: Link, m: Sizes, t: Toggles, es: seq<Traffic>)
    requires InStep(t)
    ensures InStepThroughout(d, l, m, t, es) <==> KeepsStepThroughout(d, l, m, t, es)
    decreases |es|
  {
    hide InStep, Step, KeepsStep;
    if es != [] {
      StepInStepIff(d, l, m, t, es[0]);
      var (l', t') := Step(d, l, m, t, es[0]);
      if InStep(t') {
        RunInStepIff(d, l', m, t', es[1..]);
      }
    }
  }

  // ---------------------------------------------------------------- from the probe on

  /** Traffic after a probe: polls, and requests that do not reset toggles. */
  predicate Plain(e: Traffic) {
    e.Poll? || e.Request?
  }

  /** After the probe has configured the device, from whatever toggles before it and with no assumption on
      them, the saved endpoint-1 toggle is the device's next one throughout every run of polls and of requests
      that do not reset it, however many of them fail: both sides start from DATA0. */
  lemma TogglesStayInStepFromProbe(d: Device, l: Link, m: Sizes, t: Toggles, es: seq<Traffic>)
    requires Honest(d) && m.report >= REPORT_BYTES
    requires CtrlReq(d, l, NO_DATA, m.control).rcode == 0
    requires forall e :: e in es ==> Plain(e)
    ensures var (l', t') := ConfigureStep(d, l, m.control, t);
            && !t'.ep1 && !t'.device1
            && InStepThroughout(d, l', m, t', es)
  {
    var (l', t') := ConfigureStep(d, l, m.control, t);
    PlainKeepsStep(d, l', m, t', es);
    RunInStepIff(d, l', m, t', es);
  }

  lemma {:induction false} PlainKeepsStep(d: Device, l: Link, m: Sizes, t: Toggles, es: seq<Traffic>)
    requires Honest(d) && m.report >= REPORT_BYTES && forall e :: e in es ==> Plain(e)
    ensures KeepsStepThroughout(d, l, m, t, es)
    decreases |es|
  {
    hide InTransfer, CtrlReq, Step, Honest;
    if es != [] {
      assert Plain(es[0]);
      OnePacketTransfer(d, l, REPORT_BYTES, m.report);
      var (l', t') := Step(d, l, m, t, es[0]);
      PlainKeepsStep(d, l', m, t', es[1..]);
    }
  }

  // ---------------------------------------------------------------- resets, against every device

  /** An answer that refuses a packet, and one that accepts it. */
  const STALL := Reply(0, hrSTALL, false, [])
  const ACK := Reply(0, hrSUCCESS, true, [])

  lemma AnsweredAtOnce(d: Device, k: nat)
    requires k < |d| && d[k] in [STALL, ACK]
    ensures Dispatch(d, Link(0, k)) == Dispatched(d[k].result, Link(0, k + 1))
  {
  }

  lemma Stalled(d: Device, k: nat, c: Control, maxpkt: byte)
    requires k < |d| && d[k] == STALL
    ensures CtrlReq(d, Link(0, k), c, maxpkt).rcode != 0 && CtrlReq(d, Link(0, k), c, maxpkt).link == Link(0, k + 1)
    ensures Dispatch(d, Link(0, k)).rcode != 0
    ensures var r := InTransfer(d, Link(0, k), REPORT_BYTES, maxpkt);
            r.rcode != 0 && r.acks == 0 && r.link == Link(0, k + 1)
  {
    hide Dispatch;
    AnsweredAtOnce(d, k);
  }

  lemma Acknowledged(d: Device, k: nat, maxpkt: byte)
    requires k + 1 < |d| && d[k] == d[k + 1] == ACK
    ensures CtrlReq(d, Link(0, k), NO_DATA, maxpkt).rcode == 0
  {
    hide Dispatch;
    AnsweredAtOnce(d, k);
    AnsweredAtOnce(d, k + 1);
  }

  /** An empty report. */
  lemma EmptyReport(d: Device, k: nat, maxpkt: byte)
    requires k < |d| && d[k] == ACK && maxpkt >= 1
    ensures var r := InTransfer(d, Link(0, k), REPORT_BYTES, maxpkt);
            r.rcode == 0 && r.acks == 1 && r.link == Link(0, k + 1)
  {
    hide Dispatch;
    AnsweredAtOnce(d, k);
  }

  /** The failure on a device of two replies: a reset completes while the saved toggle is DATA1. */
  lemma ResetAtData1(m: byte, t: Toggles)
    requires InStep(t) && t.ep1
    ensures !InStep(ResetStep([ACK, ACK], Link(0, 0), m, t).1)
  {
    Acknowledged([ACK, ACK], 0, m);
  }

  /** A reset keeps the two sides in step against every device if and only if the saved toggle is DATA0. */
  lemma ResetKeepsStepIff(m: byte, t: Toggles)
    requires InStep(t)
    ensures (forall d, l :: InStep(ResetStep(d, l, m, t).1)) <==> !t.ep1
  {
    hide CtrlReq;
    if t.ep1 {
      ResetAtData1(m, t);
    }
  }

  /** So does a configuration: one that the device refuses leaves its toggle, but not the saved one, at DATA1. */
  lemma ConfigureKeepsStepIff(m: byte, t: Toggles)
    requires InStep(t)
    ensures (forall d, l :: InStep(ConfigureStep(d, l, m, t).1)) <==> !t.ep1
  {
    hide CtrlReq;
    if t.ep1 {
      Stalled([STALL], 0, NO_DATA, m);
      assert !InStep(ConfigureStep([STALL], Link(0, 0), m, t).1);
    }
  }

  /** Whether a reset or a configuration of the run may come while the saved toggle is DATA1, which it is ("one")
      at the start and may be after every poll, until a configuration sets it to DATA0. */
  predicate MayResetAtData1(one: bool, es: seq<Traffic>)
    decreases |es|
  {
    es != [] &&
    match es[0]
    case Poll => MayResetAtData1(true, es[1..])
    case Request(_) => MayResetAtData1(one, es[1..])
    case Reset => one || MayResetAtData1(one, es[1..])
    case Configure => one || MayResetAtData1(false, es[1..])
  }

  /** Section 8.6 of the USB 2.0 specification over whole runs: where a packet can carry a report, the toggles stay
      in step throughout against every device if and only if no reset or configuration can come while the saved
      toggle is DATA1. The condition reads the order of the run alone. */
  lemma TogglesStayInStepIff(m: Sizes, t: Toggles, es: seq<Traffic>)
    requires m.report >= REPORT_BYTES && InStep(t)
    ensures (forall d, l :: Honest(d) ==> InStepThroughout(d, l, m, t, es)) <==> !MayResetAtData1(t.ep1, es)
  {
    hide InStepThroughout, Plan, Honest;
    if MayResetAtData1(t.ep1, es) {
      var d := Plan(t.ep1, es);
      PlanIsHonest(t.ep1, es);
      PlanBreaks(d, 0, m, t, es);
    } else {
      forall d, l | Honest(d)
        ensures InStepThroughout(d, l, m, t, es)
      {
        OrderKeepsStep(d, l, m, t, t.ep1, es);
      }
    }
  }

  lemma {:induction false} OrderKeepsStep(d: Device, l: Link, m: Sizes, t: Toggles, one: bool, es: seq<Traffic>)
    requires Honest(d) && m.report >= REPORT_BYTES && InStep(t) && (t.ep1 ==> one) && !MayResetAtData1(one, es)
    ensures InStepThroughout(d, l, m, t, es)
    decreases |es|
  {
    hide InTransfer, CtrlReq, Dispatch, DataToggle, Honest;
    if es != [] {
      OnePacketTransfer(d, l, REPORT_BYTES, m.report);
      var (l', t') := Step(d, l, m, t, es[0]);
      var one' := if es[0].Poll? then true else if es[0].Configure? then false else one;
      OrderKeepsStep(d, l', m, t', one', es[1..]);
    }
  }

  /** A device that breaks step: it refuses everything but the poll that brings the toggle to DATA1, if one is
      needed, and the reset that then comes. */
  function Plan(one: bool, es: seq<Traffic>): Device
    requires MayResetAtData1(one, es)
    decreases |es|
  {
    var rest := es[1..];
    match es[0]
    case Poll => if MayResetAtData1(one, rest) then [STALL] + Plan(one, rest) else [ACK] + Plan(true, rest)
    case Request(_) => [STALL] + Plan(one, rest)
    case Reset => if one then [ACK, ACK] else [STALL] + Plan(one, rest)
    case Configure => if one then [STALL] else [STALL] + Plan(false, rest)
  }

  lemma {:induction false} PlanIsHonest(one: bool, es: seq<Traffic>)
    requires MayResetAtData1(one, es)
    ensures Honest(Plan(one, es)) && Plan(one, es) != [] && forall r :: r in Plan(one, es) ==> r in [STALL, ACK]
    decreases |es|
  {
    var rest := es[1..];
    match es[0]
    case Poll => PlanIsHonest(if MayResetAtData1(one, rest) then one else true, rest);
    case Request(_) => PlanIsHonest(one, rest);
    case Reset => if !one { PlanIsHonest(one, rest); }
    case Configure => if !one { PlanIsHonest(false, rest); }
  }

  lemma {:induction false} PlanBreaks(d: Device, k: nat, m: Sizes, t: Toggles, es: seq<Traffic>)
    requires m.report >= REPORT_BYTES && InStep(t) && MayResetAtData1(t.ep1, es)
    requires k <= |d| && d[k..] == Plan(t.ep1, es)
    ensures !InStepThroughout(d, Link(0, k), m, t, es)
    decreases |es|
  {
    hide InTransfer, CtrlReq, Dispatch, DataToggle;
    PlanIsHonest(t.ep1, es);
    var rest := es[1..];
    assert d[k..][0] == d[k] && d[k + 1..] == d[k..][1..];
    match es[0]
    case Poll =>
      if MayResetAtData1(t.ep1, rest) {
        Stalled(d, k, NO_DATA, m.report);
        PlanBreaks(d, k + 1, m, t, rest);
      } else {
        EmptyReport(d, k, m.report);
        PlanBreaks(d, k + 1, m, t.(ep1 := true, device1 := true), rest);
      }
    case Request(c) =>
      Stalled(d, k, c, m.control);
      PlanBreaks(d, k + 1, m, t, rest);
    case Reset =>
      if t.ep1 {
        assert d[k + 1] == d[k..][1];
        Acknowledged(d, k, m.control);
      } else {
        Stalled(d, k, NO_DATA, m.control);
        PlanBreaks(d, k + 1, m, t, rest);
      }
    case Configure =>
      Stalled(d, k, NO_DATA, m.control);
      if !t.ep1 {
        PlanBreaks(d, k + 1, m, t, rest);
      }
  }
}
